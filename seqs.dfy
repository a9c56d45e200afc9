/**
 * List comprehensions over sequences: `[x for x in s if keep(x)]` and
 * `[f(x) for x in s]`, with the facts the loaders, the search and the
 * importer rely on.
 */
module Seqs {
  /** `[x for x in s if keep(x)]`: the kept elements, in order. */
  function Select<T>(s: seq<T>, keep: T -> bool): (r: seq<T>)
    ensures |r| <= |s|
  {
    if s == [] then []
    else
      var last := s[|s| - 1];
      Select(s[..|s| - 1], keep) + (if keep(last) then [last] else [])
  }

  /** `[f(x) for x in s]`. */
  function Map<T, U>(s: seq<T>, f: T -> U): (r: seq<U>)
    ensures |r| == |s|
    ensures forall i :: 0 <= i < |s| ==> r[i] == f(s[i])
  {
    seq(|s|, i requires 0 <= i < |s| => f(s[i]))
  }

  /** Appending one element selects it or not, and leaves the rest alone. */
  lemma SelectSnoc<T>(s: seq<T>, x: T, keep: T -> bool)
    ensures Select(s + [x], keep) == Select(s, keep) + (if keep(x) then [x] else [])
  {
    assert (s + [x])[..|s|] == s;
  }

  /** Selecting from one more element of a prefix. */
  lemma SelectPrefixStep<T>(s: seq<T>, i: nat, keep: T -> bool)
    requires i < |s|
    ensures Select(s[..i + 1], keep) == Select(s[..i], keep) + (if keep(s[i]) then [s[i]] else [])
  {
    assert s[..i + 1][..i] == s[..i];
  }

  lemma MapSnoc<T, U>(s: seq<T>, x: T, f: T -> U)
    ensures Map(s + [x], f) == Map(s, f) + [f(x)]
  {
  }

  /** An element is selected exactly when it is in the sequence and kept. */
  lemma {:induction false} SelectMembers<T>(s: seq<T>, keep: T -> bool)
    ensures forall e :: e in Select(s, keep) <==> e in s && keep(e)
  {
    if s != [] {
      SelectMembers(s[..|s| - 1], keep);
      assert s == s[..|s| - 1] + [s[|s| - 1]];
    }
  }

  /** Selection keeps the order: selecting from a concatenation selects from
      each part. */
  lemma {:induction false} SelectAppend<T>(a: seq<T>, b: seq<T>, keep: T -> bool)
    ensures Select(a + b, keep) == Select(a, keep) + Select(b, keep)
    decreases |b|
  {
    if b == [] {
      assert a + b == a;
    } else {
      var ab := a + b;
      assert ab[..|ab| - 1] == a + b[..|b| - 1];
      SelectAppend(a, b[..|b| - 1], keep);
    }
  }

  /** No element is selected more often than the sequence holds it. */
  lemma {:induction false} SelectMultiset<T>(s: seq<T>, keep: T -> bool)
    ensures multiset(Select(s, keep)) <= multiset(s)
  {
    if s != [] {
      SelectMultiset(s[..|s| - 1], keep);
      assert s == s[..|s| - 1] + [s[|s| - 1]];
    }
  }

  /** Keeping everything keeps the sequence; keeping nothing leaves none. */
  lemma {:induction false} SelectAllOrNone<T>(s: seq<T>, keep: T -> bool)
    ensures (forall i :: 0 <= i < |s| ==> keep(s[i])) ==> Select(s, keep) == s
    ensures (forall i :: 0 <= i < |s| ==> !keep(s[i])) ==> Select(s, keep) == []
  {
    if s != [] {
      var init := s[..|s| - 1];
      SelectAllOrNone(init, keep);
      assert forall i :: 0 <= i < |init| ==> init[i] == s[i];
      assert s == init + [s[|s| - 1]];
    }
  }
}
