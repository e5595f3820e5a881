/**
 * Who may reach a persona tool that the platform offers as an operator, answered from a short-lived cache per caller.
 */
module OperatorGates {
  import opened Outcomes

  const TTL := 30.0
  const CAPACITY: nat := 4096

  /** One platform operator: the tool it runs, and whether this caller may invoke it. */
  datatype Item = Item(server: string, tool: string, mayInvoke: bool, slug: string)

  datatype Verdict = Verdict(may: bool, slug: string)

  type Offered = map<(string, string), Verdict>

  function PairOf(i: Item): (string, string) {
    (i.server, i.tool)
  }

  /** Each tool named is cleared by any grant among its operators, and named after the last of them. */
  ghost predicate Folds(items: seq<Item>, offered: Offered) {
    && (forall p :: p in offered <==> exists i :: 0 <= i < |items| && PairOf(items[i]) == p)
    && (forall p :: p in offered ==>
          (offered[p].may <==> exists i :: 0 <= i < |items| && PairOf(items[i]) == p && items[i].mayInvoke))
    && (forall p :: p in offered ==> exists i :: Last(items, i, p) && offered[p].slug == items[i].slug)
  }

  predicate Last(items: seq<Item>, i: int, p: (string, string)) {
    0 <= i < |items| && PairOf(items[i]) == p && forall j :: i < j < |items| ==> PairOf(items[j]) != p
  }

  /** Two lists of grants that fold to a table fold to the same one. */
  lemma FoldsOnce(items: seq<Item>, a: Offered, b: Offered)
    requires Folds(items, a) && Folds(items, b)
    ensures a == b
  {
    forall p
      ensures p in a <==> p in b
    {
      assert p in a <==> exists i :: 0 <= i < |items| && PairOf(items[i]) == p;
    }
    forall p | p in a && p in b
      ensures a[p] == b[p]
    {
      SameVerdict(items, a, b, p);
    }
  }

  lemma SameVerdict(items: seq<Item>, a: Offered, b: Offered, p: (string, string))
    requires Folds(items, a) && Folds(items, b) && p in a && p in b
    ensures a[p] == b[p]
  {
    assert a[p].may <==> b[p].may;
    var i :| Last(items, i, p) && a[p].slug == items[i].slug;
    var j :| Last(items, j, p) && b[p].slug == items[j].slug;
    assert i == j;
  }

  function FoldIn(offered: Offered, i: Item): Offered {
    var p := PairOf(i);
    offered[p := Verdict((if p in offered then offered[p].may else false) || i.mayInvoke, i.slug)]
  }

  lemma FoldOne(items: seq<Item>, offered: Offered, i: Item)
    requires Folds(items, offered)
    ensures Folds(items + [i], FoldIn(offered, i))
  {
    var more, next := items + [i], FoldIn(offered, i);
    forall p
      ensures p in next <==> exists k :: 0 <= k < |more| && PairOf(more[k]) == p
      ensures p in next ==> (next[p].may <==> exists k :: 0 <= k < |more| && PairOf(more[k]) == p && more[k].mayInvoke)
    {
      FoldGrants(items, offered, i, p);
    }
    forall p | p in next
      ensures exists k :: Last(more, k, p) && next[p].slug == more[k].slug
    {
      FoldNames(items, offered, i, p);
    }
  }

  lemma FoldGrants(items: seq<Item>, offered: Offered, i: Item, p: (string, string))
    requires Folds(items, offered)
    ensures var more, next := items + [i], FoldIn(offered, i);
            && (p in next <==> exists k :: 0 <= k < |more| && PairOf(more[k]) == p)
            && (p in next ==>
                  (next[p].may <==> exists k :: 0 <= k < |more| && PairOf(more[k]) == p && more[k].mayInvoke))
  {
    var more := items + [i];
    assert more[|items|] == i && forall k :: 0 <= k < |items| ==> more[k] == items[k];
    if p in offered {
      var k :| 0 <= k < |items| && PairOf(items[k]) == p;
      assert PairOf(more[k]) == p;
      if offered[p].may {
        var m :| 0 <= m < |items| && PairOf(items[m]) == p && items[m].mayInvoke;
        assert PairOf(more[m]) == p && more[m].mayInvoke;
      }
    }
  }

  lemma FoldNames(items: seq<Item>, offered: Offered, i: Item, p: (string, string))
    requires Folds(items, offered) && p in FoldIn(offered, i)
    ensures exists k :: Last(items + [i], k, p) && FoldIn(offered, i)[p].slug == (items + [i])[k].slug
  {
    var more := items + [i];
    if p == PairOf(i) {
      assert Last(more, |items|, p);
    } else {
      var l :| Last(items, l, p) && offered[p].slug == items[l].slug;
      assert Last(more, l, p);
    }
  }

  lemma FoldNext(items: seq<Item>, offered: Offered, k: nat)
    requires k < |items| && Folds(items[..k], offered)
    ensures Folds(items[..k + 1], FoldIn(offered, items[k]))
  {
    FoldOne(items[..k], offered, items[k]);
    assert items[..k] + [items[k]] == items[..k + 1];
  }

  lemma FoldWhole(items: seq<Item>, offered: Offered)
    requires Folds(items[..|items|], offered)
    ensures Folds(items, offered)
  {
    assert items[..|items|] == items;
  }

  method Fold(items: seq<Item>) returns (offered: Offered)
    ensures Folds(items, offered)
  {
    offered := map[];
    var k := 0;
    while k < |items|
      invariant 0 <= k <= |items|
      invariant Folds(items[..k], offered)
    {
      var i := items[k];
      FoldNext(items, offered, k);
      var pair := (i.server, i.tool);
      offered := offered[pair :=
        Verdict((if pair in offered then offered[pair].may else false) || i.mayInvoke, i.slug)];
      assert Folds(items[..k + 1], offered);
      k := k + 1;
    }
    FoldWhole(items, offered);
  }

  /** Mantle's answer for a token: when the question was put, and what came back. */
  datatype Answer = Answer(token: string, asked: real, items: seq<Item>)

  /** The answer that arrived last for `token`. */
  function Latest(answers: seq<Answer>, token: string): Option<Answer> {
    if answers == [] then None
    else if answers[|answers| - 1].token == token then Some(answers[|answers| - 1])
    else Latest(answers[..|answers| - 1], token)
  }

  datatype Kept = Kept(asked: real, offered: Offered)

  /** One entry stands for the latest answer; a missing one only for an answer too old to use. */
  ghost predicate Stands(answers: seq<Answer>, seen: map<string, Kept>, clock: real, token: string) {
    var a := Latest(answers, token);
    && (token in seen ==> a.Some? && seen[token].asked == a.value.asked && Folds(a.value.items, seen[token].offered))
    && (token !in seen && a.Some? ==> clock - a.value.asked >= TTL)
  }

  ghost predicate Faithful(answers: seq<Answer>, seen: map<string, Kept>, clock: real) {
    forall token :: Stands(answers, seen, clock, token)
  }

  lemma LaterStillFaithful(answers: seq<Answer>, seen: map<string, Kept>, clock: real, now: real)
    requires Faithful(answers, seen, clock) && clock <= now
    ensures Faithful(answers, seen, now)
  {
    forall token
      ensures Stands(answers, seen, now, token)
    {
      assert Stands(answers, seen, clock, token);
    }
  }

  function Pruned(seen: map<string, Kept>, now: real): map<string, Kept> {
    map t | t in seen && now - seen[t].asked < TTL :: seen[t]
  }

  /** Dropping what is already stale, and filing one more answer, keeps the table faithful. */
  lemma FiledFaithful(answers: seq<Answer>, seen: map<string, Kept>, clock: real, now: real, a: Answer,
                      offered: Offered, prune: bool)
    requires Faithful(answers, seen, clock) && now <= clock && a.asked == now && Folds(a.items, offered)
    ensures Faithful(answers + [a], (if prune then Pruned(seen, now) else seen)[a.token := Kept(now, offered)], clock)
  {
    var next := (if prune then Pruned(seen, now) else seen)[a.token := Kept(now, offered)];
    assert (answers + [a])[..|answers|] == answers;
    forall token
      ensures Stands(answers + [a], next, clock, token)
    {
      assert Stands(answers, seen, clock, token);
    }
  }

  /** A question put to Mantle, awaiting its answer. */
  datatype Ask = Hit(offered: Offered) | Pending(token: string, now: real)

  datatype Decision = Allowed | Refused(slug: string) | Unavailable

  predicate Hex(c: char) {
    '0' <= c <= '9' || 'a' <= c <= 'f' || 'A' <= c <= 'F' || c == '-'
  }

  /** `_UUID.match`: the whole name, a closing newline aside. */
  predicate IsUuid(s: string) {
    HexText(if s != "" && s[|s| - 1] == '\n' then s[..|s| - 1] else s)
  }

  predicate HexText(b: string) {
    32 <= |b| <= 36 && forall k :: 0 <= k < |b| ==> Hex(b[k])
  }

  predicate IdText(b: string) {
    32 <= |b| <= 36 && forall k :: 0 <= k < |b| ==> b[k] in "0123456789abcdefABCDEF-"
  }

  /** A name is passed as an id when it is 32 to 36 hexadecimal digits and hyphens, a closing line end aside. */
  lemma IdNames(s: string)
    ensures IsUuid(s) <==> IdText(s) || (EndsLine(s) && IdText(s[..|s| - 1]))
  {
    AllHex(s);
    if EndsLine(s) {
      AllHex(s[..|s| - 1]);
      if IdText(s) {
        NoLineEnd(s);
      }
    }
  }

  predicate EndsLine(s: string) {
    s != "" && s[|s| - 1] == '\n'
  }

  lemma NoLineEnd(b: string)
    requires IdText(b)
    ensures b[|b| - 1] != '\n'
  {
    assert b[|b| - 1] in "0123456789abcdefABCDEF-";
  }

  lemma AllHex(b: string)
    ensures HexText(b) <==> IdText(b)
  {
    forall k | 0 <= k < |b|
      ensures Hex(b[k]) <==> b[k] in "0123456789abcdefABCDEF-"
    {
      HexDigits(b[k]);
    }
  }

  lemma HexDigits(c: char)
    ensures Hex(c) <==> c in "0123456789abcdefABCDEF-"
  {
    var digits := "0123456789abcdefABCDEF-";
    if '0' <= c <= '9' {
      assert digits[c as int - '0' as int] == c;
    } else if 'a' <= c <= 'f' {
      assert digits[10 + c as int - 'a' as int] == c;
    } else if 'A' <= c <= 'F' {
      assert digits[16 + c as int - 'A' as int] == c;
    } else if c == '-' {
      assert digits[22] == c;
    }
  }

  /** The decision `items` call for: refused exactly when some operator runs the tool and none of them is granted. */
  ghost predicate Decides(items: seq<Item>, slug: string, tool: string, d: Decision) {
    && d != Unavailable
    && (d.Refused? <==> (exists i :: 0 <= i < |items| && PairOf(items[i]) == (slug, tool)) &&
                        (forall i :: 0 <= i < |items| && PairOf(items[i]) == (slug, tool) ==> !items[i].mayInvoke))
    && (d.Refused? ==> exists i :: Last(items, i, (slug, tool)) && d.slug == items[i].slug)
  }

  class OperatorGate {
    var seen: map<string, Kept>
    ghost var answers: seq<Answer>
    ghost var clock: real

    ghost predicate Valid()
      reads this
    {
      Faithful(answers, seen, clock)
    }

    constructor (now: real)
      ensures Valid() && answers == [] && clock == now
    {
      seen, answers, clock := map[], [], now;
    }

    /**
     * The cache answers exactly when the latest answer for the token is younger than the limit, and then with that
     * answer.
     */
    method Begin(token: Option<string>, now: real) returns (ask: Ask)
      requires Valid() && clock <= now
      modifies this`clock
      ensures Valid() && clock == now
      ensures var key := if token == None then "" else token.value; var a := Latest(answers, key);
              if a.Some? && now - a.value.asked < TTL then ask.Hit? && Folds(a.value.items, ask.offered)
              else ask == Pending(key, now)
    {
      var key := if token == None then "" else token.value;
      LaterStillFaithful(answers, seen, clock, now);
      assert Stands(answers, seen, now, key);
      clock := now;
      ask := if key in seen && now - seen[key].asked < TTL then Hit(seen[key].offered) else Pending(key, now);
    }

    /** Whatever else happened since the question was put: an error files nothing, an answer becomes the latest. */
    method Complete(ask: Ask, items: Option<seq<Item>>) returns (offered: Option<Offered>)
      requires Valid() && ask.Pending? && ask.now <= clock
      modifies this
      ensures Valid() && clock == old(clock)
      ensures answers ==
              if items == None then old(answers) else old(answers) + [Answer(ask.token, ask.now, items.value)]
      ensures offered.Some? <==> items.Some?
      ensures offered.Some? ==> Folds(items.value, offered.value)
    {
      if items == None {
        return None;
      }
      var fold := Fold(items.value);
      FiledFaithful(answers, seen, clock, ask.now, Answer(ask.token, ask.now, items.value), fold, |seen| > CAPACITY);
      if |seen| > CAPACITY {
        seen := Pruned(seen, ask.now);
      }
      seen := seen[ask.token := Kept(ask.now, fold)];
      answers := answers + [Answer(ask.token, ask.now, items.value)];
      return Some(fold);
    }

    /**
     * A whole check with nothing in between. The decision is that of an answer for this token less than the limit
     * old.
     */
    method Check(slug: string, tool: string, token: Option<string>, now: real, mantle: Option<seq<Item>>)
      returns (d: Decision)
      requires Valid() && clock <= now
      modifies this
      ensures Valid()
      ensures IsUuid(slug) ==> d == Allowed && answers == old(answers)
      ensures var key := if token == None then "" else token.value;
              !IsUuid(slug) && d != Unavailable ==>
                var a := Latest(answers, key);
                a.Some? && now - a.value.asked < TTL && Decides(a.value.items, slug, tool, d)
      ensures var key := if token == None then "" else token.value; var a := Latest(old(answers), key);
              d == Unavailable <==> !IsUuid(slug) && mantle == None && !(a.Some? && now - a.value.asked < TTL)
      ensures var key := if token == None then "" else token.value; var a := Latest(old(answers), key);
              answers == if IsUuid(slug) || mantle == None || (a.Some? && now - a.value.asked < TTL) then old(answers)
                         else old(answers) + [Answer(key, now, mantle.value)]
    {
      if IsUuid(slug) {
        return Allowed;
      }
      var ask := Begin(token, now);
      var offered: Offered;
      if ask.Hit? {
        offered := ask.offered;
      } else {
        var got := Complete(ask, mantle);
        if got == None {
          return Unavailable;
        }
        offered := got.value;
      }
      d := if (slug, tool) in offered && !offered[(slug, tool)].may then Refused(offered[(slug, tool)].slug)
           else Allowed;
    }
  }
}
