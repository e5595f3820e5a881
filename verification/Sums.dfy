/** Sums of reals over sequences and over sets of names. */
module Sums {

  function SumSeq(s: seq<real>): real {
    if s == [] then 0.0 else s[0] + SumSeq(s[1..])
  }

  lemma {:induction false} SumSeqAppend(s: seq<real>, t: seq<real>)
    ensures SumSeq(s + t) == SumSeq(s) + SumSeq(t)
  {
    if s == [] {
      assert s + t == t;
    } else {
      SumSeqAppend(s[1..], t);
      assert (s + t)[1..] == s[1..] + t;
    }
  }

  ghost function SumSet(s: set<string>, f: string -> real): real {
    if s == {} then 0.0 else var x :| x in s; f(x) + SumSet(s - {x}, f)
  }

  /** The order in which a set is added up does not matter. */
  lemma {:induction false} SumSetPick(s: set<string>, f: string -> real, x: string)
    requires x in s
    ensures SumSet(s, f) == f(x) + SumSet(s - {x}, f)
    decreases s
  {
    var y :| y in s && SumSet(s, f) == f(y) + SumSet(s - {y}, f);
    if y != x {
      SumSetPick(s - {y}, f, x);
      SumSetPick(s - {x}, f, y);
      assert s - {y} - {x} == s - {x} - {y};
    }
  }

  lemma {:induction false} SumSetAgree(s: set<string>, f: string -> real, g: string -> real)
    requires forall x :: x in s ==> f(x) == g(x)
    ensures SumSet(s, f) == SumSet(s, g)
    decreases s
  {
    if s != {} {
      var x :| x in s;
      SumSetPick(s, f, x);
      SumSetPick(s, g, x);
      SumSetAgree(s - {x}, f, g);
    }
  }

  lemma {:induction false} SumSetUnion(s: set<string>, t: set<string>, f: string -> real)
    requires s !! t
    ensures SumSet(s + t, f) == SumSet(s, f) + SumSet(t, f)
    decreases s
  {
    if s == {} {
      assert s + t == t;
    } else {
      var x :| x in s;
      SumSetPick(s, f, x);
      SumSetPick(s + t, f, x);
      assert s + t - {x} == (s - {x}) + t;
      SumSetUnion(s - {x}, t, f);
    }
  }

  lemma {:induction false} SumSetZero(s: set<string>, f: string -> real)
    requires forall x :: x in s ==> f(x) == 0.0
    ensures SumSet(s, f) == 0.0
    decreases s
  {
    if s != {} {
      var x :| x in s;
      SumSetPick(s, f, x);
      SumSetZero(s - {x}, f);
    }
  }

  lemma {:induction false} SumSetNonNegative(s: set<string>, f: string -> real)
    requires forall x :: x in s ==> f(x) >= 0.0
    ensures SumSet(s, f) >= 0.0
    decreases s
  {
    if s != {} {
      var x :| x in s;
      SumSetPick(s, f, x);
      SumSetNonNegative(s - {x}, f);
    }
  }

  /** A sum that is zero off `keys` and on what `s` and `t` share comes down to their two differences. */
  lemma SumSetDifferences(keys: set<string>, s: set<string>, t: set<string>, f: string -> real, w: string -> real)
    requires keys <= s + t
    requires forall k :: k in s + t - keys ==> f(k) == 0.0
    requires forall k :: k in s * t ==> f(k) == 0.0
    requires forall k :: k in s - t || k in t - s ==> f(k) == w(k)
    ensures SumSet(keys, f) == SumSet(s - t, w) + SumSet(t - s, w)
  {
    var rest := s + t - keys;
    assert keys + rest == s + t == ((s - t) + (t - s)) + s * t;
    SumSetUnion(keys, rest, f);
    SumSetZero(rest, f);
    SumSetUnion((s - t) + (t - s), s * t, f);
    SumSetUnion(s - t, t - s, f);
    SumSetZero(s * t, f);
    SumSetAgree(s - t, f, w);
    SumSetAgree(t - s, f, w);
  }

  predicate Distinct<T(==)>(s: seq<T>) {
    forall i, j :: 0 <= i < j < |s| ==> s[i] != s[j]
  }

  function ToSet<T(==)>(s: seq<T>): set<T> {
    set x | x in s
  }

  lemma DistinctAppend<T>(s: seq<T>, x: T)
    requires Distinct(s) && x !in s
    ensures Distinct(s + [x])
  {
  }

  lemma ToSetAppend<T>(s: seq<T>, x: T)
    ensures ToSet(s + [x]) == ToSet(s) + {x}
  {
  }

  lemma ToSetCons<T>(x: T, s: seq<T>)
    ensures ToSet([x] + s) == {x} + ToSet(s)
  {
  }

  lemma DistinctTail<T>(s: seq<T>)
    requires Distinct(s) && s != []
    ensures Distinct(s[1..]) && s[0] !in s[1..] && s == [s[0]] + s[1..]
  {
  }

  lemma {:induction false} SizeOfListing<T>(s: seq<T>)
    requires Distinct(s)
    ensures |ToSet(s)| == |s|
  {
    if s == [] {
      assert ToSet(s) == {};
    } else {
      DistinctTail(s);
      SizeOfListing(s[1..]);
      ToSetCons(s[0], s[1..]);
    }
  }

  lemma {:induction false} DistinctCount<T>(s: seq<T>, x: T)
    requires Distinct(s)
    ensures multiset(s)[x] <= 1
  {
    if s != [] {
      DistinctTail(s);
      DistinctCount(s[1..], x);
      if x == s[0] {
        assert multiset(s[1..])[x] == 0;
      }
    }
  }

  lemma CountTwice<T>(t: seq<T>, i: nat, j: nat)
    requires i < j < |t| && t[i] == t[j]
    ensures multiset(t)[t[i]] >= 2
  {
    assert t == t[..j] + [t[j]] + t[j + 1..];
    assert t[i] in t[..j];
  }

  /** Rearranging a duplicate-free listing leaves it duplicate-free, with the same members. */
  lemma SameMembers<T>(s: seq<T>, t: seq<T>)
    requires multiset(s) == multiset(t) && Distinct(s)
    ensures Distinct(t) && ToSet(s) == ToSet(t) && |s| == |t|
  {
    assert |multiset(s)| == |multiset(t)|;
    forall x
      ensures x in s <==> x in t
    {
      assert x in multiset(s) <==> x in multiset(t);
    }
    forall i, j | 0 <= i < j < |t|
      ensures t[i] != t[j]
    {
      DistinctCount(s, t[i]);
      if t[i] == t[j] {
        CountTwice(t, i, j);
      }
    }
  }

  /** Adding a duplicate-free listing term by term is adding its set. */
  lemma {:induction false} SumSeqIsSumSet(s: seq<string>, f: string -> real)
    requires Distinct(s)
    ensures SumSeq(seq(|s|, i requires 0 <= i < |s| => f(s[i]))) == SumSet(ToSet(s), f)
  {
    var terms := seq(|s|, i requires 0 <= i < |s| => f(s[i]));
    if s != [] {
      var rest := s[1..];
      var tail := seq(|rest|, i requires 0 <= i < |rest| => f(rest[i]));
      assert terms[1..] == tail;
      assert s[0] !in rest;
      assert ToSet(s) - {s[0]} == ToSet(rest);
      SumSetPick(ToSet(s), f, s[0]);
      SumSeqIsSumSet(rest, f);
    }
  }
}
