/**
 * Positional views of sequences: the positions whose element satisfies a
 * test, and the elements of a sequence read at a list of positions.  The
 * pipeline keeps several arrays index-aligned; these two functions are how
 * the model talks about "the ids at the positions carrying a label".
 */
module Seqs {

  /** The positions of `s` whose element satisfies `p`, in increasing order. */
  function Where<T>(s: seq<T>, p: T -> bool): (ps: seq<nat>)
    ensures forall k :: 0 <= k < |ps| ==> ps[k] < |s| && p(s[ps[k]])
    ensures forall i :: 0 <= i < |s| && p(s[i]) ==> i in ps
    ensures forall j, k :: 0 <= j < k < |ps| ==> ps[j] < ps[k]
    ensures |ps| <= |s|
    decreases |s|
  {
    if s == [] then []
    else Where(s[..|s| - 1], p) + (if p(s[|s| - 1]) then [|s| - 1] else [])
  }

  /** A position satisfying `p` has its place in `Where(s, p)`. */
  lemma WhereIndex<T>(s: seq<T>, p: T -> bool, i: nat) returns (k: nat)
    requires i < |s| && p(s[i])
    ensures k < |Where(s, p)| && Where(s, p)[k] == i
  {
    var ps := Where(s, p);
    assert i in ps;
    k :| 0 <= k < |ps| && ps[k] == i;
  }

  /** Two positions satisfying `p` keep their order in `Where(s, p)`. */
  lemma WherePair<T>(s: seq<T>, p: T -> bool, i: nat, j: nat) returns (k1: nat, k2: nat)
    requires i < j < |s| && p(s[i]) && p(s[j])
    ensures k1 < k2 < |Where(s, p)| && Where(s, p)[k1] == i && Where(s, p)[k2] == j
  {
    k1 := WhereIndex(s, p, i);
    k2 := WhereIndex(s, p, j);
  }

  /** Every valid position is below `n`. */
  predicate Below(ps: seq<nat>, n: nat)
  {
    forall k :: 0 <= k < |ps| ==> ps[k] < n
  }

  /** No element occurs twice. */
  predicate Distinct<T(==)>(xs: seq<T>)
  {
    forall i, j :: 0 <= i < j < |xs| ==> xs[i] != xs[j]
  }

  /** The elements of `xs` at the positions `ps`, in the order of `ps`. */
  function Pick<T>(xs: seq<T>, ps: seq<nat>): seq<T>
    requires Below(ps, |xs|)
  {
    seq(|ps|, k requires 0 <= k < |ps| => xs[ps[k]])
  }

  /** Growing the prefix by one element adds at most the new last position. */
  lemma WhereSnoc<T>(s: seq<T>, x: T, p: T -> bool)
    ensures Where(s + [x], p) == Where(s, p) + (if p(x) then [|s|] else [])
  {
    assert (s + [x])[..|s|] == s;
  }

  /** Picking one more position appends one more element. */
  lemma PickSnoc<T>(xs: seq<T>, ps: seq<nat>, i: nat)
    requires Below(ps, |xs|) && i < |xs|
    ensures Below(ps + [i], |xs|)
    ensures Pick(xs, ps + [i]) == Pick(xs, ps) + [xs[i]]
  {
  }

  /** Positions inside `xs` pick the same elements once `xs` is extended. */
  lemma PickExtend<T>(xs: seq<T>, ys: seq<T>, ps: seq<nat>)
    requires Below(ps, |xs|)
    ensures Below(ps, |xs + ys|)
    ensures Pick(xs + ys, ps) == Pick(xs, ps)
  {
  }

  /** Extending `xs` by `x`, and possibly picking its new last position, picks `x` last. */
  lemma PickExtendSnoc<T>(xs: seq<T>, x: T, ps: seq<nat>, take: bool)
    requires Below(ps, |xs|)
    ensures Below(ps + (if take then [|xs|] else []), |xs + [x]|)
    ensures Pick(xs + [x], ps + (if take then [|xs|] else [])) == Pick(xs, ps) + (if take then [x] else [])
  {
    PickExtend(xs, [x], ps);
    if take {
      PickSnoc(xs + [x], ps, |xs|);
    }
  }

  /**
   * Positions taken from two disjoint position lists name disjoint elements,
   * provided the elements of `xs` are pairwise distinct.
   */
  lemma {:induction false} PickDisjoint<T>(xs: seq<T>, ps: seq<nat>, qs: seq<nat>)
    requires Below(ps, |xs|) && Below(qs, |xs|)
    requires Distinct(xs)
    requires forall k :: 0 <= k < |ps| ==> ps[k] !in qs
    ensures forall x :: x in Pick(xs, ps) ==> x !in Pick(xs, qs)
  {
    forall a, b | 0 <= a < |ps| && 0 <= b < |qs|
      ensures Pick(xs, ps)[a] != Pick(xs, qs)[b]
    {
      assert ps[a] != qs[b];
    }
  }
}
