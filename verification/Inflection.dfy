/** What `morphy` and `synsets` answer, told by the words and their endings. */
module Inflections {
  import opened Outcomes
  import opened Lexicon
  import opened Morphology
  import opened WordSenses

  // ---- endings ----

  /** With this stem, `w` is an inflection of `b` by its ending alone. */
  predicate Inflects(p: string, stem: string, w: string, b: string) {
    if p == "n" then
      || (w == stem + "s" && b == stem) || (w == stem + "ses" && b == stem + "s")
      || (w == stem + "xes" && b == stem + "x") || (w == stem + "zes" && b == stem + "z")
      || (w == stem + "ches" && b == stem + "ch") || (w == stem + "shes" && b == stem + "sh")
      || (w == stem + "men" && b == stem + "man") || (w == stem + "ies" && b == stem + "y")
    else if p == "v" then
      || (w == stem + "s" && b == stem) || (w == stem + "ies" && b == stem + "y")
      || ((w == stem + "es" || w == stem + "ed" || w == stem + "ing") && (b == stem + "e" || b == stem))
    else
      p == "a" && (w == stem + "er" || w == stem + "est") && (b == stem || b == stem + "e")
  }

  ghost predicate Detaches(p: string, w: string, b: string) {
    exists stem :: Inflects(p, stem, w, b)
  }

  predicate Fits(rule: (string, string), w: string, b: string) {
    rule.0 != "" && EndsWith(w, rule.0) && Detach(w, rule) == b
  }

  lemma FitsByStem(rule: (string, string), stem: string, w: string, b: string)
    requires rule.0 != "" && w == stem + rule.0 && b == stem + rule.1
    ensures Fits(rule, w, b)
  {
    assert w[|w| - |rule.0|..] == rule.0 && w[..|w| - |rule.0|] == stem;
  }

  lemma StemOfFit(rule: (string, string), w: string, b: string) returns (stem: string)
    requires Fits(rule, w, b)
    ensures w == stem + rule.0 && b == stem + rule.1
  {
    stem := w[..|w| - |rule.0|];
  }

  lemma NounRules(stem: string, w: string, b: string) returns (k: nat)
    requires Inflects("n", stem, w, b)
    ensures k < |Rules("n")| && w == stem + Rules("n")[k].0 && b == stem + Rules("n")[k].1
  {
    var r := Rules("n");
    assert stem + "" == stem;
    k := if w == stem + "s" && b == stem then 0
         else if w == stem + "ses" && b == stem + "s" then 1
         else if w == stem + "xes" && b == stem + "x" then 2
         else if w == stem + "zes" && b == stem + "z" then 3
         else if w == stem + "ches" && b == stem + "ch" then 4
         else if w == stem + "shes" && b == stem + "sh" then 5
         else if w == stem + "men" && b == stem + "man" then 6
         else 7;
  }

  lemma VerbRules(stem: string, w: string, b: string) returns (k: nat)
    requires Inflects("v", stem, w, b)
    ensures k < |Rules("v")| && w == stem + Rules("v")[k].0 && b == stem + Rules("v")[k].1
  {
    assert stem + "" == stem;
    k := if w == stem + "s" && b == stem then 0
         else if w == stem + "ies" && b == stem + "y" then 1
         else if w == stem + "es" then (if b == stem + "e" then 2 else 3)
         else if w == stem + "ed" then (if b == stem + "e" then 4 else 5)
         else if b == stem + "e" then 6 else 7;
  }

  lemma AdjectiveRules(stem: string, w: string, b: string) returns (k: nat)
    requires Inflects("a", stem, w, b)
    ensures k < |Rules("a")| && w == stem + Rules("a")[k].0 && b == stem + Rules("a")[k].1
  {
    assert stem + "" == stem;
    k := if w == stem + "er" then (if b == stem then 0 else 2) else if b == stem then 1 else 3;
  }

  lemma RuleInflects(p: string, k: nat, stem: string)
    requires k < |Rules(p)|
    ensures Rules(p)[k].0 != "" && Inflects(p, stem, stem + Rules(p)[k].0, stem + Rules(p)[k].1)
  {
    assert stem + "" == stem;
  }

  /** The detachment rules are those endings, and no others. */
  lemma RulesAreEndings(p: string, w: string, b: string)
    ensures Detaches(p, w, b) <==> exists k :: 0 <= k < |Rules(p)| && Fits(Rules(p)[k], w, b)
  {
    if stem :| Inflects(p, stem, w, b) {
      var k;
      if p == "n" {
        k := NounRules(stem, w, b);
      } else if p == "v" {
        k := VerbRules(stem, w, b);
      } else {
        k := AdjectiveRules(stem, w, b);
      }
      RuleInflects(p, k, stem);
      FitsByStem(Rules(p)[k], stem, w, b);
    }
    if k :| 0 <= k < |Rules(p)| && Fits(Rules(p)[k], w, b) {
      var stem := StemOfFit(Rules(p)[k], w, b);
      RuleInflects(p, k, stem);
    }
  }

  // ---- which of two bases an ending is tried with first ----

  lemma {:induction false} SkipTo(known: Known, w: string, p: string, rules: seq<(string, string)>, k: nat)
    requires k <= |rules| && forall i :: 0 <= i < k ==> !EndsWith(w, rules[i].0)
    ensures TryRules(known, w, p, rules) == TryRules(known, w, p, rules[k..])
  {
    if k == 0 {
      assert rules[0..] == rules;
    } else {
      SkipTo(known, w, p, rules[1..], k - 1);
      assert rules[1..][k - 1..] == rules[k..];
    }
  }

  /** Rules `k` and `k + 1` alone fit: the first that leads to a known word is taken. */
  lemma TwoRules(known: Known, w: string, p: string, rules: seq<(string, string)>, k: nat, b: string, c: string)
    requires k + 1 < |rules| && Fits(rules[k], w, b) && Fits(rules[k + 1], w, c)
    requires forall i :: 0 <= i < |rules| && i != k && i != k + 1 ==> !EndsWith(w, rules[i].0)
    requires known(b, p).Ok? && known(c, p).Ok?
    ensures TryRules(known, w, p, rules) == FirstOf(known, p, b, c)
  {
    SkipTo(known, w, p, rules, k);
    var rest := rules[k + 2..];
    forall r | r in rest
      ensures !EndsWith(w, r.0)
    {
      var i :| 0 <= i < |rest| && rest[i] == r;
      assert rules[k + 2 + i] == r;
    }
    NoneFits(known, w, p, rest);
    assert rules[k..][1..] == rules[k + 1..] && rules[k + 1..][1..] == rest;
  }

  function FirstOf(known: Known, p: string, b: string, c: string): Result<Option<string>, NoRank>
    requires known(b, p).Ok? && known(c, p).Ok?
  {
    if known(b, p).value then Ok(Some(b)) else if known(c, p).value then Ok(Some(c)) else Ok(None)
  }

  lemma EndsApart(stem: string, e: string, suffix: string)
    requires e != "" && suffix != "" && e[|e| - 1] != suffix[|suffix| - 1]
    ensures !EndsWith(stem + e, suffix)
  {
    var w := stem + e;
    if |suffix| <= |w| {
      var end := w[|w| - |suffix|..];
      assert end[|end| - 1] == w[|w| - 1] == e[|e| - 1];
    }
  }

  /** A verb's "ed" and "ing" are taken off with an "e" put back before they are taken off alone. */
  lemma VerbEndings(known: Known, stem: string, ed: bool)
    requires known(stem, "v").Ok? && known(stem + "e", "v").Ok?
    ensures TryRules(known, stem + if ed then "ed" else "ing", "v", Rules("v")) ==
            FirstOf(known, "v", stem + "e", stem)
  {
    var rules, e := Rules("v"), if ed then "ed" else "ing";
    var k := if ed then 4 else 6;
    FitsByStem(rules[k], stem, stem + e, stem + "e");
    assert stem + "" == stem;
    FitsByStem(rules[k + 1], stem, stem + e, stem);
    forall i | 0 <= i < |rules| && i != k && i != k + 1
      ensures !EndsWith(stem + e, rules[i].0)
    {
      EndsApart(stem, e, rules[i].0);
    }
    TwoRules(known, stem + e, "v", rules, k, stem + "e", stem);
  }

  // ---- what morphy may answer ----

  /** The word itself, the base its irregular form is filed under, or what its ending detaches to. */
  ghost predicate Candidate(irregular: (string, string) -> Option<string>, w: string, p: string, b: string) {
    b == w || (irregular(w, p) == Some(b) && b != "") || Detaches(p, w, b)
  }

  lemma {:induction false} WordTried(known: Known, w: string, ps: seq<string>)
    ensures var r := TryWord(known, w, ps);
            && (r.Err? ==> exists p :: p in ps && known(w, p).Err?)
            && (r == Ok(None) ==> forall p :: p in ps ==> known(w, p) == Ok(false))
            && (r.Ok? && r.value.Some? ==> r.value.value == w && exists p :: p in ps && known(w, p) == Ok(true))
  {
    if ps != [] {
      WordTried(known, w, ps[1..]);
    }
  }

  lemma {:induction false} IrregularTried(known: Known, irregular: (string, string) -> Option<string>, w: string,
                                          ps: seq<string>)
    ensures var r := TryIrregular(known, irregular, w, ps);
            && (r.Err? ==> exists p, b :: p in ps && irregular(w, p) == Some(b) && b != "" && known(b, p).Err?)
            && (r == Ok(None) ==>
                  forall p, b :: p in ps && irregular(w, p) == Some(b) && b != "" ==> known(b, p) == Ok(false))
            && (r.Ok? && r.value.Some? ==>
                  r.value.value != "" &&
                  exists p :: p in ps && irregular(w, p) == r.value && known(r.value.value, p) == Ok(true))
  {
    if ps != [] {
      IrregularTried(known, irregular, w, ps[1..]);
    }
  }

  ghost predicate FitsOne(rules: seq<(string, string)>, w: string, b: string) {
    exists k :: 0 <= k < |rules| && Fits(rules[k], w, b)
  }

  lemma FitsFirst(rules: seq<(string, string)>, w: string, b: string)
    requires rules != []
    ensures FitsOne(rules, w, b) <==> Fits(rules[0], w, b) || FitsOne(rules[1..], w, b)
  {
    var rest := rules[1..];
    if k :| 0 <= k < |rules| && Fits(rules[k], w, b) {
      assert k > 0 ==> Fits(rest[k - 1], w, b);
    }
    if k :| 0 <= k < |rest| && Fits(rest[k], w, b) {
      assert Fits(rules[k + 1], w, b);
    }
  }

  lemma {:induction false} RulesTried(known: Known, w: string, p: string, rules: seq<(string, string)>)
    ensures var r := TryRules(known, w, p, rules);
            && (r.Err? ==> exists b :: FitsOne(rules, w, b) && known(b, p).Err?)
            && (r == Ok(None) ==> forall b :: FitsOne(rules, w, b) ==> known(b, p) == Ok(false))
            && (r.Ok? && r.value.Some? ==> FitsOne(rules, w, r.value.value) && known(r.value.value, p) == Ok(true))
  {
    if rules != [] {
      RulesTried(known, w, p, rules[1..]);
      forall b
        ensures FitsOne(rules, w, b) <==> Fits(rules[0], w, b) || FitsOne(rules[1..], w, b)
      {
        FitsFirst(rules, w, b);
      }
    }
  }

  lemma {:induction false} AllRulesTried(known: Known, w: string, ps: seq<string>)
    ensures var r := TryAllRules(known, w, ps);
            && (r.Err? ==> exists p, b :: p in ps && Detaches(p, w, b) && known(b, p).Err?)
            && (r == Ok(None) ==> forall p, b :: p in ps && Detaches(p, w, b) ==> known(b, p) == Ok(false))
            && (r.Ok? && r.value.Some? ==>
                  exists p :: p in ps && Detaches(p, w, r.value.value) && known(r.value.value, p) == Ok(true))
  {
    if ps != [] {
      AllRulesTried(known, w, ps[1..]);
      PartTried(known, w, ps[0]);
      var r := TryRules(known, w, ps[0], Rules(ps[0]));
      if r != Ok(None) {
        assert ps[0] in ps && TryAllRules(known, w, ps) == r;
      } else {
        assert forall p :: p in ps <==> p == ps[0] || p in ps[1..];
      }
    }
  }

  lemma PartTried(known: Known, w: string, p: string)
    ensures var r := TryRules(known, w, p, Rules(p));
            && (r.Err? ==> exists b :: Detaches(p, w, b) && known(b, p).Err?)
            && (r == Ok(None) ==> forall b :: Detaches(p, w, b) ==> known(b, p) == Ok(false))
            && (r.Ok? && r.value.Some? ==> Detaches(p, w, r.value.value) && known(r.value.value, p) == Ok(true))
  {
    RulesTried(known, w, p, Rules(p));
    forall b
      ensures Detaches(p, w, b) <==> FitsOne(Rules(p), w, b)
    {
      RulesAreEndings(p, w, b);
    }
  }

  /** `morphy` answers a known candidate; it answers nothing exactly when there is none, and fails only where asking
      for one failed. */
  lemma MorphyExactly(known: Known, irregular: (string, string) -> Option<string>, word: string, ps: seq<string>)
    ensures var w, r := Surface(word), Morphy(known, irregular, word, ps);
            && (r.Err? ==> exists p, b :: p in ps && Candidate(irregular, w, p, b) && known(b, p).Err?)
            && (r == Ok(None) ==> forall p, b :: p in ps && Candidate(irregular, w, p, b) ==> known(b, p) == Ok(false))
            && (r.Ok? && r.value.Some? ==> var b := r.value.value;
                  exists p :: p in ps && Candidate(irregular, w, p, b) && known(b, p) == Ok(true))
  {
    var w := Surface(word);
    WordTried(known, w, ps);
    IrregularTried(known, irregular, w, ps);
    AllRulesTried(known, w, ps);
  }

  /** A known word is its own base; an unknown one with a known irregular base goes by that, whatever its ending. */
  lemma MorphyPrefers(known: Known, irregular: (string, string) -> Option<string>, word: string, ps: seq<string>)
    requires forall c, p :: known(c, p).Ok?
    ensures var w, r := Surface(word), Morphy(known, irregular, word, ps);
            && ((exists p :: p in ps && known(w, p) == Ok(true)) ==> r == Ok(Some(w)))
            && ((forall p :: p in ps ==> known(w, p) == Ok(false)) &&
                (exists p, b :: p in ps && irregular(w, p) == Some(b) && b != "" && known(b, p) == Ok(true)) ==>
                  exists p, b :: p in ps && irregular(w, p) == Some(b) && known(b, p) == Ok(true) && r == Ok(Some(b)))
  {
    WordTried(known, Surface(word), ps);
    IrregularTried(known, irregular, Surface(word), ps);
  }

  // ---- what synsets finds for an inflected word ----

  /** The in-memory tables as the load leaves them. */
  ghost predicate Loaded(docs: seq<SynDoc>, index: Morphology.Senses, exc: map<(string, string), string>) {
    && (forall w, p :: WordsAt(index, w, p) == Lexicon.Senses(Entries(docs), w, p))
    && (forall w, p :: (w, p) in index ==> index[(w, p)] != [])
    && (forall w, p :: Lookup(exc, (w, p)) == FirstBase(Irregulars(docs), w, p))
  }

  ghost predicate Listed(docs: seq<SynDoc>, w: string, p: string) {
    exists d :: d in docs && Lists(d, w, p)
  }

  lemma KnownIsListed(docs: seq<SynDoc>, index: Morphology.Senses, exc: map<(string, string), string>,
                      w: string, p: string)
    requires Loaded(docs, index, exc)
    ensures IndexedKnown(index)(w, p) == Ok(Listed(docs, w, p))
  {
    HasSenses(docs, w, p);
    assert WordsAt(index, w, p) == Lexicon.Senses(Entries(docs), w, p);
  }

  /** Some doc files `f`, in its part of speech `p`, among the irregular forms of `b`. */
  ghost predicate Irregularly(docs: seq<SynDoc>, f: string, p: string, b: string) {
    exists d :: d in docs && d.pos == p && exists entry :: entry in d.forms && FiledUnder(entry, f, b)
  }

  ghost predicate FiledUnder(entry: (string, seq<string>), f: string, b: string) {
    Spells(entry.0, b) && exists form :: form in entry.1 && Spells(form, f)
  }

  lemma {:induction false} FormsAre(pos: string, base: string, fs: seq<string>, f: string, p: string, b: string)
    ensures (f, p, b) in FormsOf(pos, base, fs) <==> p == pos && FiledUnder((base, fs), f, b)
  {
    SurfaceSpells(base, b);
    if fs != [] {
      SurfaceSpells(fs[0], f);
      FormsAre(pos, base, fs[1..], f, p, b);
      assert forall form :: form in fs <==> form == fs[0] || form in fs[1..];
    }
  }

  lemma {:induction false} DocFormsAre(d: SynDoc, forms: seq<(string, seq<string>)>, f: string, p: string, b: string)
    ensures (f, p, b) in DocForms(d, forms) <==> p == d.pos && exists entry :: entry in forms && FiledUnder(entry, f, b)
  {
    if forms != [] {
      FormsAre(d.pos, forms[0].0, forms[0].1, f, p, b);
      DocFormsAre(d, forms[1..], f, p, b);
      assert forall entry :: entry in forms <==> entry == forms[0] || entry in forms[1..];
    }
  }

  lemma {:induction false} IrregularsAre(docs: seq<SynDoc>, f: string, p: string, b: string)
    ensures (f, p, b) in Irregulars(docs) <==> Irregularly(docs, f, p, b)
  {
    if docs != [] {
      var init, d := docs[..|docs| - 1], docs[|docs| - 1];
      IrregularsAre(init, f, p, b);
      DocFormsAre(d, d.forms, f, p, b);
      assert forall x :: x in docs <==> x in init || x == d;
    }
  }

  /** The in-memory irregulars are exactly what the docs file, where they file one base a form. */
  lemma IrregularsExactly(docs: seq<SynDoc>, f: string, p: string, b: string)
    requires OneBase(Irregulars(docs))
    ensures FirstBase(Irregulars(docs), f, p) == Some(b) <==> Irregularly(docs, f, p, b)
  {
    var all := Irregulars(docs);
    BaseFound(all, f, p);
    IrregularsAre(docs, f, p, b);
    if (f, p, b) in all {
      assert FirstBase(all, f, p).Some?;
      assert (f, p, FirstBase(all, f, p).value) in all;
    }
  }

  /** A base that some doc lists and the word may be an inflection of. */
  ghost predicate Base(docs: seq<SynDoc>, w: string, p: string, b: string) {
    Listed(docs, b, p) && Candidate(FromIndex(Irregulars(docs)), w, p, b)
  }

  /** The parts of speech tried are the one asked for, else those of the order that have rules, in that order. */
  lemma PartsTried(order: seq<string>, pos: Option<string>)
    ensures pos.Some? && pos.value != "" ==> PartsToTry(order, pos) == [pos.value]
    ensures pos == None || pos.value == "" ==>
              forall p :: p in PartsToTry(order, pos) <==> p in order && p in {"n", "v", "a", "r"}
    ensures pos == None && (forall p :: p in order ==> p in {"n", "v", "a", "r"}) ==> PartsToTry(order, pos) == order
  {
    RuledAre(order);
  }

  lemma {:induction false} RuledAre(order: seq<string>)
    ensures forall p :: p in Ruled(order) <==> p in order && p in {"n", "v", "a", "r"}
    ensures (forall p :: p in order ==> p in {"n", "v", "a", "r"}) ==> Ruled(order) == order
  {
    if order != [] {
      RuledAre(order[1..]);
      assert forall p :: p in order <==> p == order[0] || p in order[1..];
      assert [order[0]] + order[1..] == order;
      if forall p :: p in order ==> p in {"n", "v", "a", "r"} {
        assert order[0] in order && HasRules(order[0]);
        assert Ruled(order) == [order[0]] + Ruled(order[1..]);
      }
    }
  }

  type Answers = (string, Option<string>) -> Result<seq<string>, NoRank>

  /** A candidate of the word in one of the parts of speech tried is known. */
  ghost predicate KnownBase(known: Known, irregular: (string, string) -> Option<string>, w: string, ps: seq<string>,
                            b: string) {
    exists p :: p in ps && Candidate(irregular, w, p, b) && known(b, p) == Ok(true)
  }

  /** Whatever holds the senses: a word without any of its own answers those of a known candidate, and nothing exactly
      where there is none. */
  lemma AnswersByBase(names: Answers, known: Known, irregular: (string, string) -> Option<string>, order: seq<string>,
                      word: string, pos: Option<string>)
    requires names("", pos) == Ok([]) && (forall c :: names(c, pos).Ok?) && forall c, p :: known(c, p).Ok?
    requires forall c, p :: p in PartsToTry(order, pos) && known(c, p) == Ok(true) ==> names(c, pos) != Ok([])
    ensures var w, r := Surface(word), Synsets(names, known, irregular, order, word, pos);
            && (r == Ok([]) <==>
                  names(w, pos) == Ok([]) && forall b :: !KnownBase(known, irregular, w, PartsToTry(order, pos), b))
            && (names(w, pos) != Ok([]) ==> r == names(w, pos))
            && (names(w, pos) == Ok([]) && r != Ok([]) ==>
                  exists b :: KnownBase(known, irregular, w, PartsToTry(order, pos), b) && r == names(b, pos))
  {
    var w, ps := Surface(word), PartsToTry(order, pos);
    SurfaceTwice(word);
    MorphyExactly(known, irregular, w, ps);
    var m := Morphy(known, irregular, w, ps);
    assert m.Ok?;
    if m.value.Some? {
      assert KnownBase(known, irregular, w, ps, m.value.value);
    }
  }

  lemma SameCandidates(f: (string, string) -> Option<string>, g: (string, string) -> Option<string>, w: string,
                       p: string)
    requires f(w, p) == g(w, p)
    ensures forall b :: Candidate(f, w, p, b) <==> Candidate(g, w, p, b)
  {
  }

  /** In one part of speech, a word with senses of its own answers those; any other answers the senses of a base some
      doc lists, and nothing exactly where no doc lists one. */
  lemma SynsetsFind(docs: seq<SynDoc>, order: seq<string>, index: Morphology.Senses, exc: map<(string, string), string>,
                    word: string, p: string)
    requires Loaded(docs, index, exc) && p != "" && !Listed(docs, "", p)
    ensures var w := Surface(word);
            var r := Synsets(IndexedNames(order, index), IndexedKnown(index), IndexedIrregular(exc), order, word,
                             Some(p));
            && (r == Ok([]) <==> forall b :: !Base(docs, w, p, b))
            && (r != Ok([]) ==> exists b :: Base(docs, w, p, b) && r == Ok(Lexicon.Senses(Entries(docs), b, p)))
            && (Listed(docs, w, p) ==> r == Ok(Lexicon.Senses(Entries(docs), w, p)))
  {
    var w, names, known := Surface(word), IndexedNames(order, index), IndexedKnown(index);
    var irregular := IndexedIrregular(exc);
    PartsTried(order, Some(p));
    forall b, q
      ensures known(b, q) == Ok(Listed(docs, b, q))
      ensures names(b, Some(q)) == Ok(Lexicon.Senses(Entries(docs), b, q))
      ensures names(b, Some(q)) != Ok([]) <==> Listed(docs, b, q)
    {
      OneIndexed(docs, order, index, exc, b, q);
    }
    AnswersByBase(names, known, irregular, order, word, Some(p));
    forall b
      ensures KnownBase(known, irregular, w, [p], b) <==> Base(docs, w, p, b)
    {
      BaseIsKnown(docs, index, exc, w, p, b);
    }
    assert Listed(docs, w, p) ==> Base(docs, w, p, w);
  }

  lemma BaseIsKnown(docs: seq<SynDoc>, index: Morphology.Senses, exc: map<(string, string), string>, w: string,
                    p: string, b: string)
    requires Loaded(docs, index, exc)
    ensures KnownBase(IndexedKnown(index), IndexedIrregular(exc), w, [p], b) <==> Base(docs, w, p, b)
  {
    KnownIsListed(docs, index, exc, b, p);
    SameCandidates(IndexedIrregular(exc), FromIndex(Irregulars(docs)), w, p);
    assert p in [p] && forall q :: q in [p] ==> q == p;
  }

  ghost predicate AnyBase(docs: seq<SynDoc>, order: seq<string>, w: string, b: string) {
    exists p :: p in order && p in {"n", "v", "a", "r"} && Base(docs, w, p, b)
  }

  /** In no particular part of speech: a word some doc lists answers its senses, part of speech by part of speech; any
      other those of a base, and nothing exactly where there is none. */
  lemma SynsetsFindAny(docs: seq<SynDoc>, order: seq<string>, index: Morphology.Senses,
                       exc: map<(string, string), string>, word: string)
    requires Loaded(docs, index, exc) && forall p :: p in order ==> !Listed(docs, "", p)
    ensures var w := Surface(word);
            var r := Synsets(IndexedNames(order, index), IndexedKnown(index), IndexedIrregular(exc), order, word, None);
            && (r == Ok([]) <==>
                  (forall p :: p in order ==> !Listed(docs, w, p)) && forall b :: !AnyBase(docs, order, w, b))
            && ((exists p :: p in order && Listed(docs, w, p)) ==> r == Ok(IndexNames(Entries(docs), w, order)))
            && (r != Ok([]) && (forall p :: p in order ==> !Listed(docs, w, p)) ==>
                  exists b :: AnyBase(docs, order, w, b) && r == Ok(IndexNames(Entries(docs), b, order)))
  {
    var w, names, known := Surface(word), IndexedNames(order, index), IndexedKnown(index);
    PartsTried(order, None);
    forall c
      ensures names(c, None) == Ok(IndexNames(Entries(docs), c, order))
      ensures names(c, None) == Ok([]) <==> forall p :: p in order ==> !Listed(docs, c, p)
    {
      AllPartsAre(index, Entries(docs), c, order);
      PartsListed(docs, c, order);
    }
    forall c, p
      ensures known(c, p) == Ok(Listed(docs, c, p))
    {
      KnownIsListed(docs, index, exc, c, p);
    }
    AnswersByBase(names, known, IndexedIrregular(exc), order, word, None);
    forall b
      ensures KnownBase(known, IndexedIrregular(exc), w, PartsToTry(order, None), b) <==> AnyBase(docs, order, w, b)
    {
      AnyBaseIsKnown(docs, order, index, exc, w, b);
    }
  }

  lemma AnyBaseIsKnown(docs: seq<SynDoc>, order: seq<string>, index: Morphology.Senses,
                       exc: map<(string, string), string>, w: string, b: string)
    requires Loaded(docs, index, exc)
    ensures KnownBase(IndexedKnown(index), IndexedIrregular(exc), w, PartsToTry(order, None), b)
            <==> AnyBase(docs, order, w, b)
  {
    PartsTried(order, None);
    forall p
      ensures Candidate(IndexedIrregular(exc), w, p, b) && IndexedKnown(index)(b, p) == Ok(true) <==>
              Base(docs, w, p, b)
    {
      KnownIsListed(docs, index, exc, b, p);
      SameCandidates(IndexedIrregular(exc), FromIndex(Irregulars(docs)), w, p);
    }
  }

  lemma {:induction false} PartsListed(docs: seq<SynDoc>, w: string, ps: seq<string>)
    ensures IndexNames(Entries(docs), w, ps) == [] <==> forall p :: p in ps ==> !Listed(docs, w, p)
  {
    if ps != [] {
      HasSenses(docs, w, ps[0]);
      PartsListed(docs, w, ps[1..]);
      assert forall p :: p in ps <==> p == ps[0] || p in ps[1..];
      var first, rest := Lexicon.Senses(Entries(docs), w, ps[0]), IndexNames(Entries(docs), w, ps[1..]);
      assert first != [] <==> Listed(docs, w, ps[0]);
      assert IndexNames(Entries(docs), w, ps) == first + rest;
      assert |first + rest| == |first| + |rest|;
    }
  }

  lemma OneIndexed(docs: seq<SynDoc>, order: seq<string>, index: Morphology.Senses, exc: map<(string, string), string>,
                   b: string, p: string)
    requires Loaded(docs, index, exc)
    ensures IndexedNames(order, index)(b, Some(p)) == Ok(Lexicon.Senses(Entries(docs), b, p))
    ensures IndexedKnown(index)(b, p) == Ok(Listed(docs, b, p))
    ensures Listed(docs, b, p) <==> Lexicon.Senses(Entries(docs), b, p) != []
  {
    HasSenses(docs, b, p);
    KnownIsListed(docs, index, exc, b, p);
  }

  lemma RegularPlural(known: Known, irregular: (string, string) -> Option<string>, b: string)
    requires Surface(b + "s") == b + "s" && irregular(b + "s", "n") == None
    requires known(b + "s", "n") == Ok(false) && known(b, "n") == Ok(true)
    ensures Morphy(known, irregular, b + "s", ["n"]) == Ok(Some(b))
  {
    var w := b + "s";
    FitsByStem(("s", ""), b, w, b);
    var ps := ["n"];
    assert ps[0] == "n" && ps[1..] == [] && irregular(w, ps[0]) == None;
    assert TryWord(known, w, ps) == Ok(None);
    assert TryIrregular(known, irregular, w, ps) == TryIrregular(known, irregular, w, ps[1..]);
    assert TryRules(known, w, "n", Rules("n")) == Ok(Some(b));
    assert TryAllRules(known, w, ps) == Ok(Some(b));
  }

  /** For instance a regular plural that no doc lists and no irregular claims stands for the senses of its singular. */
  lemma PluralFound(docs: seq<SynDoc>, order: seq<string>, index: Morphology.Senses, exc: map<(string, string), string>,
                    b: string)
    requires Loaded(docs, index, exc) && b != "" && Surface(b + "s") == b + "s"
    requires Listed(docs, b, "n") && !Listed(docs, b + "s", "n") && FirstBase(Irregulars(docs), b + "s", "n") == None
    ensures Synsets(IndexedNames(order, index), IndexedKnown(index), IndexedIrregular(exc), order, b + "s", Some("n"))
            == Ok(Lexicon.Senses(Entries(docs), b, "n"))
  {
    OneIndexed(docs, order, index, exc, b + "s", "n");
    OneIndexed(docs, order, index, exc, b, "n");
    RegularPlural(IndexedKnown(index), IndexedIrregular(exc), b);
  }
}
