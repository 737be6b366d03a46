/** Sequence vocabulary: distinctness, positions, first-occurrence de-duplication
    (the behaviour of spreading a JavaScript `Set` back into an array) and filtering. */
module Seqs {

  /** No element occurs twice. */
  predicate NoDups<T(==)>(s: seq<T>) {
    forall i, j :: 0 <= i < j < |s| ==> s[i] != s[j]
  }

  /** Position of the first occurrence of `x` in `s`. */
  function IndexOf<T(==)>(s: seq<T>, x: T): (i: nat)
    requires x in s
    ensures i < |s| && s[i] == x
    ensures x !in s[..i]
  {
    if s[0] == x then 0 else 1 + IndexOf(s[1..], x)
  }

  /** `a` occurs in `s` strictly before `b` does. */
  predicate Before<T(==)>(s: seq<T>, a: T, b: T) {
    a in s && b in s && IndexOf(s, a) < IndexOf(s, b)
  }

  /** Keeps the first occurrence of every element, in the order of first occurrence:
      what `[...new Set(s)]` yields. */
  function Dedup<T(==,!new)>(s: seq<T>): (r: seq<T>)
    ensures NoDups(r)
    ensures forall x :: x in r <==> x in s
    ensures forall i, j :: 0 <= i < j < |r| ==> IndexOf(s, r[i]) < IndexOf(s, r[j])
    ensures |r| <= |s|
  {
    if s == [] then []
    else
      var r := Dedup(s[..|s| - 1]);
      if s[|s| - 1] in r then r else r + [s[|s| - 1]]
  }

  /** The elements of `s` that belong to `keep`, in their order in `s`. */
  function Restrict<T(==)>(s: seq<T>, keep: set<T>): seq<T>
  {
    if s == [] then []
    else if s[0] in keep then [s[0]] + Restrict(s[1..], keep)
    else Restrict(s[1..], keep)
  }

  /** De-duplicating a sequence that is already duplicate-free changes nothing. */
  lemma {:induction false} DedupOfDistinct<T(!new)>(s: seq<T>)
    requires NoDups(s)
    ensures Dedup(s) == s
  {
    if s != [] {
      var init := s[..|s| - 1];
      assert NoDups(init);
      DedupOfDistinct(init);
      assert s[|s| - 1] !in init;
      assert init + [s[|s| - 1]] == s;
    }
  }

  /** Restrict keeps exactly the members of `keep`. */
  lemma {:induction false} RestrictMembers<T>(s: seq<T>, keep: set<T>)
    ensures forall x :: x in Restrict(s, keep) <==> x in s && x in keep
  {
    if s != [] {
      RestrictMembers(s[1..], keep);
      assert forall x :: x in s <==> x == s[0] || x in s[1..];
    }
  }

  /** Restrict keeps a duplicate-free sequence duplicate-free. */
  lemma {:induction false} RestrictNoDups<T>(s: seq<T>, keep: set<T>)
    requires NoDups(s)
    ensures NoDups(Restrict(s, keep))
  {
    if s != [] {
      assert NoDups(s[1..]);
      RestrictNoDups(s[1..], keep);
      RestrictMembers(s[1..], keep);
      assert s[0] !in s[1..];
    }
  }

  /** Restrict keeps the relative order of the elements it keeps. */
  lemma {:induction false} RestrictBefore<T>(s: seq<T>, keep: set<T>, a: T, b: T)
    requires Before(s, a, b)
    requires a in keep && b in keep
    ensures Before(Restrict(s, keep), a, b)
  {
    RestrictMembers(s, keep);
    RestrictMembers(s[1..], keep);
    if s[0] == a {
      assert b != a;
      assert b in s[1..];
    } else {
      assert s[0] != b;
      assert Before(s[1..], a, b);
      RestrictBefore(s[1..], keep, a, b);
    }
  }

  /** In a duplicate-free sequence every element occurs exactly once. */
  lemma {:induction false} NoDupsCount<T>(s: seq<T>, x: T)
    requires NoDups(s)
    ensures multiset(s)[x] == if x in s then 1 else 0
  {
    if s != [] {
      assert NoDups(s[1..]);
      NoDupsCount(s[1..], x);
      assert s == [s[0]] + s[1..];
      assert multiset(s) == multiset{s[0]} + multiset(s[1..]);
      assert s[0] !in s[1..];
    }
  }

  /** Two duplicate-free sequences with the same elements are permutations of each other. */
  lemma {:induction false} DistinctSameElementsArePermutations<T>(a: seq<T>, b: seq<T>)
    requires NoDups(a) && NoDups(b)
    requires forall x :: x in a <==> x in b
    ensures multiset(a) == multiset(b)
  {
    forall x
      ensures multiset(a)[x] == multiset(b)[x]
    {
      NoDupsCount(a, x);
      NoDupsCount(b, x);
    }
  }

  /** A duplicate-free sequence drawn from `pool` is no longer than `pool`. */
  lemma {:induction false} DistinctWithinIsShorter<T>(s: seq<T>, pool: seq<T>)
    requires NoDups(s)
    requires forall x :: x in s ==> x in pool
    ensures |s| <= |pool|
  {
    if s != [] {
      var x := s[0];
      var i := IndexOf(pool, x);
      var pool' := pool[..i] + pool[i + 1..];
      forall y | y in s[1..]
        ensures y in pool'
      {
        assert y in s && y != x;
        var k := IndexOf(pool, y);
        if k < i {
          assert pool'[k] == y;
        } else {
          assert k != i;
          assert pool'[k - 1] == y;
        }
      }
      assert NoDups(s[1..]);
      DistinctWithinIsShorter(s[1..], pool');
    }
  }
}
