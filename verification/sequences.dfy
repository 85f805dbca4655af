/** Helpers over sequences of strings for the scoring functions: the set of a sequence,
    duplicate removal (the key set of a Go map built from a slice), and real
    sums over a list of distinct keys (a loop over a Go map). */
module Sequences {

  function ToSet(s: seq<string>): (r: set<string>)
    ensures forall x :: x in r <==> x in s
  {
    set x | x in s
  }

  predicate NoDuplicates(s: seq<string>) {
    forall i, j :: 0 <= i < j < |s| ==> s[i] != s[j]
  }

  /** The distinct elements of `s` in order of first occurrence: one fixed
      enumeration of the keys of a map filled from `s`. */
  function Distinct(s: seq<string>): (r: seq<string>)
    ensures forall x :: x in r <==> x in s
    ensures NoDuplicates(r)
  {
    if |s| == 0 then []
    else
      var r := Distinct(s[..|s| - 1]);
      assert forall x :: x in s <==> x in s[..|s| - 1] || x == s[|s| - 1] by {
        assert s == s[..|s| - 1] + [s[|s| - 1]];
      }
      if s[|s| - 1] in r then r else r + [s[|s| - 1]]
  }

  /** A duplicate-free sequence holds each of its elements exactly once. */
  lemma {:induction false} NoDuplicatesCount(s: seq<string>, x: string)
    requires NoDuplicates(s)
    ensures multiset(s)[x] == if x in s then 1 else 0
  {
    if |s| > 0 {
      assert s == [s[0]] + s[1..];
      assert NoDuplicates(s[1..]) by {
        forall i, j | 0 <= i < j < |s[1..]|
          ensures s[1..][i] != s[1..][j]
        {
          assert s[1..][i] == s[i + 1] && s[1..][j] == s[j + 1];
        }
      }
      NoDuplicatesCount(s[1..], x);
      if x == s[0] {
        assert x !in s[1..] by {
          forall k | 0 <= k < |s[1..]|
            ensures s[1..][k] != x
          {
            assert s[1..][k] == s[k + 1];
          }
        }
      }
    }
  }

  /** Two duplicate-free sequences with the same elements are permutations of
      each other. */
  lemma SameElementsPermutation(s: seq<string>, t: seq<string>)
    requires NoDuplicates(s) && NoDuplicates(t)
    requires forall x :: x in s <==> x in t
    ensures multiset(s) == multiset(t)
  {
    forall x
      ensures multiset(s)[x] == multiset(t)[x]
    {
      NoDuplicatesCount(s, x);
      NoDuplicatesCount(t, x);
    }
  }

  /** The sum of `f` over the elements of `s`. */
  function Sum(s: seq<string>, f: string -> real): real {
    if |s| == 0 then 0.0 else f(s[0]) + Sum(s[1..], f)
  }

  lemma {:induction false} SumAppend(s: seq<string>, t: seq<string>, f: string -> real)
    ensures Sum(s + t, f) == Sum(s, f) + Sum(t, f)
  {
    if |s| > 0 {
      assert (s + t)[0] == s[0] && (s + t)[1..] == s[1..] + t;
      SumAppend(s[1..], t, f);
    } else {
      assert s + t == t;
    }
  }

  /** A sum does not depend on the order of its terms. */
  lemma {:induction false} SumPermutation(s: seq<string>, t: seq<string>, f: string -> real)
    requires multiset(s) == multiset(t)
    ensures Sum(s, f) == Sum(t, f)
    decreases |s|
  {
    if |s| > 0 {
      var x := s[0];
      assert x in multiset(t) by { assert x in multiset(s); }
      var k :| 0 <= k < |t| && t[k] == x;
      var rest := t[..k] + t[k + 1..];
      assert t == t[..k] + [x] + t[k + 1..];
      assert s == [x] + s[1..];
      assert multiset(t) == multiset(t[..k]) + multiset([x]) + multiset(t[k + 1..]);
      assert multiset(rest) == multiset(t[..k]) + multiset(t[k + 1..]);
      assert multiset(s) == multiset([x]) + multiset(s[1..]);
      assert multiset(s[1..]) == multiset(rest) by {
        forall y
          ensures multiset(s[1..])[y] == multiset(rest)[y]
        {
          assert multiset(s)[y] == multiset(t)[y];
        }
      }
      SumPermutation(s[1..], rest, f);
      SumAppend(t[..k] + [x], t[k + 1..], f);
      SumAppend(t[..k], [x], f);
      SumAppend(t[..k], t[k + 1..], f);
    }
  }

  /** Sums of functions that agree on the summed elements agree. */
  lemma {:induction false} SumPointwise(s: seq<string>, f: string -> real, g: string -> real)
    requires forall x :: x in s ==> f(x) == g(x)
    ensures Sum(s, f) == Sum(s, g)
  {
    if |s| > 0 {
      assert s[0] in s;
      SumPointwise(s[1..], f, g);
    }
  }

  /** A sum of non-negative terms is non-negative, and positive when one term is. */
  lemma {:induction false} SumNonnegative(s: seq<string>, f: string -> real)
    requires forall x :: x in s ==> f(x) >= 0.0
    ensures Sum(s, f) >= 0.0
    ensures (exists x :: x in s && f(x) > 0.0) ==> Sum(s, f) > 0.0
  {
    if |s| > 0 {
      assert s[0] in s;
      SumNonnegative(s[1..], f);
      assert forall x :: x in s ==> x == s[0] || x in s[1..];
    }
  }

  /** A sum of non-negative terms with one positive term is positive. */
  lemma {:induction false} SumPositive(s: seq<string>, f: string -> real, t: string)
    requires forall x :: x in s ==> f(x) >= 0.0
    requires t in s && f(t) > 0.0
    ensures Sum(s, f) > 0.0
  {
    SumNonnegative(s[1..], f);
    if s[0] != t {
      SumPositive(s[1..], f, t);
    }
  }

  /** A sum of zero terms is zero. */
  lemma {:induction false} SumZero(s: seq<string>, f: string -> real)
    requires forall x :: x in s ==> f(x) == 0.0
    ensures Sum(s, f) == 0.0
  {
    if |s| > 0 {
      assert s[0] in s;
      SumZero(s[1..], f);
    }
  }
}
