/** Python's stable `sorted`, and the fact that an antisymmetric order leaves only one sorted listing. */
module Sorting {
  import opened Outcomes

  function Insert<T>(le: (T, T) -> bool, x: T, s: seq<T>): seq<T> {
    if s == [] || le(x, s[0]) then [x] + s else [s[0]] + Insert(le, x, s[1..])
  }

  function SortBy<T>(le: (T, T) -> bool, s: seq<T>): seq<T> {
    if s == [] then [] else Insert(le, s[0], SortBy(le, s[1..]))
  }

  ghost predicate TotalPreorder<T(!new)>(le: (T, T) -> bool) {
    && (forall x, y :: le(x, y) || le(y, x))
    && (forall x, y, z :: le(x, y) && le(y, z) ==> le(x, z))
  }

  ghost predicate Antisymmetric<T(!new)>(le: (T, T) -> bool) {
    forall x, y :: le(x, y) && le(y, x) ==> x == y
  }

  ghost predicate Sorted<T>(le: (T, T) -> bool, s: seq<T>) {
    forall i, j :: 0 <= i < j < |s| ==> le(s[i], s[j])
  }

  lemma {:induction false} InsertSorts<T(!new)>(le: (T, T) -> bool, x: T, s: seq<T>)
    requires TotalPreorder(le) && Sorted(le, s)
    ensures Sorted(le, Insert(le, x, s))
  {
    if s != [] && !le(x, s[0]) {
      InsertSorts(le, x, s[1..]);
      InsertedAbove(le, s[0], x, s[1..]);
      SortedCons(le, s[0], Insert(le, x, s[1..]));
    }
  }

  lemma SortedCons<T(!new)>(le: (T, T) -> bool, low: T, s: seq<T>)
    requires Sorted(le, s) && forall y :: y in s ==> le(low, y)
    ensures Sorted(le, [low] + s)
  {
  }

  lemma {:induction false} InsertKeeps<T>(le: (T, T) -> bool, x: T, s: seq<T>)
    ensures multiset(Insert(le, x, s)) == multiset([x]) + multiset(s)
  {
    if s != [] {
      assert s == [s[0]] + s[1..];
      if !le(x, s[0]) {
        InsertKeeps(le, x, s[1..]);
      }
    }
  }

  lemma {:induction false} InsertedAbove<T(!new)>(le: (T, T) -> bool, low: T, x: T, s: seq<T>)
    requires le(low, x) && forall y :: y in s ==> le(low, y)
    ensures forall y :: y in Insert(le, x, s) ==> le(low, y)
  {
    if s != [] {
      InsertedAbove(le, low, x, s[1..]);
    }
  }

  lemma {:induction false} SortSorts<T(!new)>(le: (T, T) -> bool, s: seq<T>)
    requires TotalPreorder(le)
    ensures Sorted(le, SortBy(le, s)) && multiset(SortBy(le, s)) == multiset(s)
  {
    if s != [] {
      SortSorts(le, s[1..]);
      InsertSorts(le, s[0], SortBy(le, s[1..]));
      InsertKeeps(le, s[0], SortBy(le, s[1..]));
      assert s == [s[0]] + s[1..];
    }
  }

  lemma SameHead<T(!new)>(le: (T, T) -> bool, s: seq<T>, t: seq<T>)
    requires Antisymmetric(le) && TotalPreorder(le) && Sorted(le, s) && Sorted(le, t)
    requires multiset(s) == multiset(t) && s != [] && t != []
    ensures s[0] == t[0]
  {
    assert s[0] in multiset(t) && t[0] in multiset(s);
    var i :| 0 <= i < |t| && t[i] == s[0];
    var j :| 0 <= j < |s| && s[j] == t[0];
    assert le(s[0], t[0]) && le(t[0], s[0]);
  }

  lemma SameTail<T>(s: seq<T>, t: seq<T>)
    requires multiset(s) == multiset(t) && s != [] && t != [] && s[0] == t[0]
    ensures multiset(s[1..]) == multiset(t[1..])
  {
    assert s == [s[0]] + s[1..] && t == [t[0]] + t[1..];
    assert multiset(s[1..]) == multiset(s) - multiset{s[0]};
    assert multiset(t[1..]) == multiset(t) - multiset{t[0]};
  }

  lemma {:induction false} SortedIsUnique<T(!new)>(le: (T, T) -> bool, s: seq<T>, t: seq<T>)
    requires Antisymmetric(le) && TotalPreorder(le) && Sorted(le, s) && Sorted(le, t)
    requires multiset(s) == multiset(t)
    ensures s == t
  {
    assert |multiset(s)| == |multiset(t)|;
    if s != [] {
      SameHead(le, s, t);
      SameTail(s, t);
      SortedIsUnique(le, s[1..], t[1..]);
      assert s == [s[0]] + s[1..] && t == [t[0]] + t[1..];
    }
  }

  // ---- mapping and filtering a listing, whatever its order ----

  function Collect<A, B>(f: A -> Option<B>, s: seq<A>): seq<B> {
    if s == [] then []
    else
      var last := f(s[|s| - 1]);
      Collect(f, s[..|s| - 1]) + if last.Some? then [last.value] else []
  }

  lemma {:induction false} CollectAppend<A, B>(f: A -> Option<B>, s: seq<A>, t: seq<A>)
    ensures Collect(f, s + t) == Collect(f, s) + Collect(f, t)
  {
    if t == [] {
      assert s + t == s;
    } else {
      var init := t[..|t| - 1];
      CollectAppend(f, s, init);
      assert (s + t)[..|s + t| - 1] == s + init;
    }
  }

  lemma CollectOne<A, B>(f: A -> Option<B>, x: A)
    ensures Collect(f, [x]) == if f(x).Some? then [f(x).value] else []
  {
    assert [x][..0] == [];
  }

  lemma CollectAround<A, B>(f: A -> Option<B>, u: seq<A>, x: A, v: seq<A>)
    ensures multiset(Collect(f, u + [x] + v)) == multiset(Collect(f, u + v)) + multiset(Collect(f, [x]))
  {
    CollectAppend(f, u, v);
    CollectAppend(f, u + [x], v);
    CollectAppend(f, u, [x]);
  }

  lemma FindIn<A>(init: seq<A>, x: A, t: seq<A>) returns (u: seq<A>, v: seq<A>)
    requires multiset(init + [x]) == multiset(t)
    ensures t == u + [x] + v && multiset(init) == multiset(u + v)
  {
    assert x in multiset(t);
    var j :| 0 <= j < |t| && t[j] == x;
    u, v := t[..j], t[j + 1..];
    assert t == u + [x] + v;
    assert multiset(t) == multiset(u + v) + multiset{x};
    assert multiset(init) == multiset(init + [x]) - multiset{x} && multiset(u + v) == multiset(t) - multiset{x};
  }

  /** Two listings of the same things collect the same things. */
  lemma {:induction false} CollectMultiset<A, B>(f: A -> Option<B>, s: seq<A>, t: seq<A>)
    requires multiset(s) == multiset(t)
    ensures multiset(Collect(f, s)) == multiset(Collect(f, t))
  {
    if s == [] {
      assert |multiset(t)| == 0;
    } else {
      var init, x := s[..|s| - 1], s[|s| - 1];
      assert s == init + [x];
      var u, v := FindIn(init, x, t);
      CollectMultiset(f, init, u + v);
      CollectAround(f, u, x, v);
      CollectOne(f, x);
    }
  }

  lemma {:induction false} CollectAgree<A, B>(f: A -> Option<B>, g: A -> Option<B>, s: seq<A>)
    requires forall x :: x in s ==> f(x) == g(x)
    ensures Collect(f, s) == Collect(g, s)
  {
    if s != [] {
      CollectAgree(f, g, s[..|s| - 1]);
    }
  }

  /** Splitting what is collected into two kinds loses and adds nothing. */
  lemma {:induction false} CollectSplit<A, B>(f: A -> Option<B>, g: A -> Option<B>, h: A -> Option<B>, s: seq<A>)
    requires forall x :: f(x) == if g(x).Some? then g(x) else h(x)
    requires forall x :: g(x) == None || h(x) == None
    ensures multiset(Collect(f, s)) == multiset(Collect(g, s)) + multiset(Collect(h, s))
  {
    if s != [] {
      CollectSplit(f, g, h, s[..|s| - 1]);
    }
  }
}
