/** Concept names and other identifiers are strings compared by code point, as Python compares `str`. */
module Names {

  /** Python's `a <= b` on strings. */
  predicate StrLe(a: string, b: string) {
    a == "" || (b != "" && (a[0] < b[0] || (a[0] == b[0] && StrLe(a[1..], b[1..]))))
  }

  function LowerChar(c: char): char {
    if 'A' <= c <= 'Z' then ((c as int) + 32) as char else c
  }

  function Lower(s: string): (l: string)
    ensures |l| == |s|
  {
    seq(|s|, k requires 0 <= k < |s| => LowerChar(s[k]))
  }

  lemma {:induction false} StrLeRefl(a: string)
    ensures StrLe(a, a)
  {
    if a != "" {
      StrLeRefl(a[1..]);
    }
  }

  lemma {:induction false} StrLeTotal(a: string, b: string)
    ensures StrLe(a, b) || StrLe(b, a)
  {
    if a != "" && b != "" && a[0] == b[0] {
      StrLeTotal(a[1..], b[1..]);
    }
  }

  lemma {:induction false} StrLeAntisym(a: string, b: string)
    requires StrLe(a, b) && StrLe(b, a)
    ensures a == b
  {
    if a != "" && b != "" {
      StrLeAntisym(a[1..], b[1..]);
      assert a == [a[0]] + a[1..] && b == [b[0]] + b[1..];
    }
  }

  lemma {:induction false} StrLeTrans(a: string, b: string, c: string)
    requires StrLe(a, b) && StrLe(b, c)
    ensures StrLe(a, c)
  {
    if a != "" && a[0] == b[0] && b[0] == c[0] {
      StrLeTrans(a[1..], b[1..], c[1..]);
    }
  }

  /** The two agree up to `k`, where `a` ends or has the smaller code. */
  predicate SortsAt(a: string, b: string, k: nat) {
    && k <= |a| && k <= |b| && a[..k] == b[..k]
    && (k == |a| || (k < |b| && a[k] < b[k]))
  }

  /** The order is by code point at the first difference, a prefix before what it begins. */
  lemma {:induction false} StrLeByCode(a: string, b: string)
    ensures StrLe(a, b) <==> exists k: nat :: SortsAt(a, b, k)
  {
    if a == "" {
      assert SortsAt(a, b, 0);
    } else if b != "" {
      StrLeByCode(a[1..], b[1..]);
      if a[0] < b[0] {
        assert SortsAt(a, b, 0);
      }
      if a[0] == b[0] {
        forall k: nat
          ensures SortsAt(a[1..], b[1..], k) <==> SortsAt(a, b, k + 1)
        {
          SortsNext(a, b, k);
        }
      }
      if k: nat :| SortsAt(a, b, k) {
        if k > 0 {
          assert a[0] == a[..k][0] && b[0] == b[..k][0];
          SortsNext(a, b, k - 1);
        }
      }
    }
  }

  lemma SortsNext(a: string, b: string, k: nat)
    requires a != "" && b != "" && a[0] == b[0]
    ensures SortsAt(a[1..], b[1..], k) <==> SortsAt(a, b, k + 1)
  {
    if k < |a| && k < |b| {
      assert a[..k + 1] == [a[0]] + a[1..][..k] && b[..k + 1] == [b[0]] + b[1..][..k];
      assert a[1..][..k] == a[..k + 1][1..] && b[1..][..k] == b[..k + 1][1..];
    }
  }
}

/** Two datatypes every other module uses. */
module Outcomes {
  datatype Option<+T> = None | Some(value: T)

  datatype Result<+T, +E> = Ok(value: T) | Err(error: E)
}
