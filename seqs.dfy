/**
 * Order-preserving selection over sequences: the shape of a `WHERE` clause
 * evaluated over a table whose rows are kept in a sequence.
 */
module Seqs {

  /** The elements of `s` that satisfy `keep`, in their original order. */
  function Filter<T(!new)>(s: seq<T>, keep: T -> bool): (r: seq<T>)
    ensures |r| <= |s|
    ensures forall x :: x in r <==> x in s && keep(x)
  {
    if s == [] then []
    else if keep(s[0]) then [s[0]] + Filter(s[1..], keep)
    else Filter(s[1..], keep)
  }

  /** The complement of a selection predicate. */
  function Not<T(!new)>(keep: T -> bool): T -> bool
  {
    x => !keep(x)
  }

  /** `a` is `b` with some elements removed and the rest in the same order. */
  predicate IsSubsequence<T(==)>(a: seq<T>, b: seq<T>)
    decreases |b|
  {
    if a == [] then true
    else if b == [] then false
    else if a[0] == b[0] then IsSubsequence(a[1..], b[1..])
    else IsSubsequence(a, b[1..])
  }

  /** Filtering keeps the surviving elements in their relative order. */
  lemma {:induction false} FilterIsSubsequence<T(!new)>(s: seq<T>, keep: T -> bool)
    ensures IsSubsequence(Filter(s, keep), s)
  {
    if s != [] {
      FilterIsSubsequence(s[1..], keep);
    }
  }

  /** Every element goes to exactly one side of a selection and its complement. */
  lemma {:induction false} FilterPartition<T(!new)>(s: seq<T>, keep: T -> bool)
    ensures |Filter(s, keep)| + |Filter(s, Not(keep))| == |s|
    ensures multiset(Filter(s, keep)) + multiset(Filter(s, Not(keep))) == multiset(s)
  {
    if s != [] {
      FilterPartition(s[1..], keep);
      assert s == [s[0]] + s[1..];
    }
  }

  /** Two selections can be applied in either order. */
  lemma {:induction false} FilterCommutes<T(!new)>(s: seq<T>, f: T -> bool, g: T -> bool)
    ensures Filter(Filter(s, f), g) == Filter(Filter(s, g), f)
  {
    if s != [] {
      FilterCommutes(s[1..], f, g);
    }
  }

  /** A selection that every element passes changes nothing. */
  lemma {:induction false} FilterKeepsAll<T(!new)>(s: seq<T>, keep: T -> bool)
    requires forall x :: x in s ==> keep(x)
    ensures Filter(s, keep) == s
  {
    if s != [] {
      FilterKeepsAll(s[1..], keep);
    }
  }

  /** A selection that no element passes yields nothing. */
  lemma {:induction false} FilterDropsAll<T(!new)>(s: seq<T>, keep: T -> bool)
    requires forall x :: x in s ==> !keep(x)
    ensures Filter(s, keep) == []
  {
    if s != [] {
      FilterDropsAll(s[1..], keep);
    }
  }

  /** Taking one more element of `t` after a fixed prefix `s`. */
  lemma TakeOneMore<T>(s: seq<T>, t: seq<T>, i: nat)
    requires i < |t|
    ensures s + t[..i + 1] == s + t[..i] + [t[i]]
    ensures t[..i + 1] == t[..i] + [t[i]]
  {
    assert t[..i + 1] == t[..i] + [t[i]];
  }
}
