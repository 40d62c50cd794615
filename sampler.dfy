/** Drawing without replacement (`random.sample`). The random choice is
    left as an unconstrained pick, so what is proved holds of every draw
    the random source could make: the result has the requested length and
    takes its elements from pairwise-distinct positions of the population.
    Uniformity is a statistical property and is not stated. */
module Sampler {

  /** `pos` lists pairwise-distinct positions of a population of `size`. */
  predicate IsDraw(pos: seq<int>, size: nat) {
    (forall k :: 0 <= k < |pos| ==> 0 <= pos[k] < size) &&
    (forall a, b :: 0 <= a < b < |pos| ==> pos[a] != pos[b])
  }

  /** The elements of `s` at the positions `pos`, in that order. */
  function Pick<T>(s: seq<T>, pos: seq<int>): (r: seq<T>)
    requires forall k :: 0 <= k < |pos| ==> 0 <= pos[k] < |s|
    ensures |r| == |pos|
  {
    seq(|pos|, k requires 0 <= k < |pos| => s[pos[k]])
  }

  /** `r` is what some draw without replacement from `s` returns. */
  ghost predicate DrawnFrom<T>(r: seq<T>, s: seq<T>) {
    exists pos :: IsDraw(pos, |s|) && r == Pick(s, pos)
  }

  /** `random.sample(population, k)`, written as one way a draw without
      replacement proceeds: a pool of the positions still available; at
      step i one of the first `size - i` entries is picked and taken, and
      the last available entry moves into its place. (CPython uses this
      pool for small populations and rejection against a set of chosen
      positions otherwise; the contract covers both.) */
  method Sample<T>(population: seq<T>, k: nat) returns (r: seq<T>, ghost pos: seq<int>)
    requires k <= |population|
    ensures |r| == k
    ensures IsDraw(pos, |population|) && r == Pick(population, pos)
  {
    var size := |population|;
    var pool := seq(size, i => i);
    r, pos := [], [];
    for i := 0 to k
      invariant |pool| == size && |r| == i && |pos| == i
      invariant IsDraw(pos, size) && r == Pick(population, pos)
      invariant forall a :: 0 <= a < size - i ==> 0 <= pool[a] < size
      invariant forall a, b :: 0 <= a < b < size - i ==> pool[a] != pool[b]
      invariant forall a, b :: 0 <= a < size - i && 0 <= b < i ==> pool[a] != pos[b]
    {
      var j :| 0 <= j < size - i;
      r, pos := r + [population[pool[j]]], pos + [pool[j]];
      pool := pool[j := pool[size - i - 1]];
    }
  }

  /** The positions of a draw renumbered for the population with position
      `p` removed. */
  function Shift(pos: seq<int>, p: int): (q: seq<int>)
    ensures |q| == |pos|
  {
    seq(|pos|, k requires 0 <= k < |pos| => if pos[k] < p then pos[k] else pos[k] - 1)
  }

  /** Removing the element at position `p` from the population and
      renumbering the positions after it leaves a draw, picking the same
      elements, provided the draw avoided `p`. */
  lemma RemovePosition<T>(s: seq<T>, pos: seq<int>, p: int)
    requires IsDraw(pos, |s|)
    requires 0 <= p < |s|
    requires forall k :: 0 <= k < |pos| ==> pos[k] != p
    ensures IsDraw(Shift(pos, p), |s| - 1)
    ensures Pick(s[..p] + s[p + 1..], Shift(pos, p)) == Pick(s, pos)
  {
  }

  /** Without replacement: a draw never holds an element more often than
      the population does. */
  lemma {:induction false} PickSubMultiset<T>(s: seq<T>, pos: seq<int>)
    requires IsDraw(pos, |s|)
    ensures multiset(Pick(s, pos)) <= multiset(s)
    decreases |pos|
  {
    if pos != [] {
      var m := |pos| - 1;
      var p := pos[m];
      var init := pos[..m];
      assert IsDraw(init, |s|);
      assert forall k :: 0 <= k < m ==> init[k] != p;
      var rest := s[..p] + s[p + 1..];
      RemovePosition(s, init, p);
      PickSubMultiset(rest, Shift(init, p));
      MultisetWithout(s, p);
      PickLast(s, pos);
    }
  }

  lemma MultisetWithout<T>(s: seq<T>, p: int)
    requires 0 <= p < |s|
    ensures multiset(s) == multiset(s[..p] + s[p + 1..]) + multiset{s[p]}
  {
    assert s == s[..p] + [s[p]] + s[p + 1..];
  }

  lemma PickLast<T>(s: seq<T>, pos: seq<int>)
    requires IsDraw(pos, |s|) && pos != []
    ensures multiset(Pick(s, pos)) == multiset(Pick(s, pos[..|pos| - 1])) + multiset{s[pos[|pos| - 1]]}
  {
    assert Pick(s, pos) == Pick(s, pos[..|pos| - 1]) + [s[pos[|pos| - 1]]];
  }

  /** Taking every position in order is a draw: the whole population is
      one result of a draw of its full size. */
  lemma WholeIsDrawn<T>(s: seq<T>)
    ensures DrawnFrom(s, s)
  {
    var pos := seq(|s|, k => k);
    assert IsDraw(pos, |s|);
    assert Pick(s, pos) == s;
  }

  /** Taking no position is a draw: `[]` is drawn from any population. */
  lemma EmptyIsDrawn<T>(s: seq<T>)
    ensures DrawnFrom([], s)
  {
    assert IsDraw([], |s|) && Pick(s, []) == [];
  }

  /** A drawn sequence is no longer than its population, every element of
      it comes from the population, and it is a sub-multiset of it. */
  lemma DrawnFromIsSubset<T>(r: seq<T>, s: seq<T>)
    requires DrawnFrom(r, s)
    ensures |r| <= |s|
    ensures multiset(r) <= multiset(s)
    ensures forall x :: x in r ==> x in s
  {
    var pos :| IsDraw(pos, |s|) && r == Pick(s, pos);
    PickSubMultiset(s, pos);
    assert multiset(s) == multiset(r) + (multiset(s) - multiset(r));
    assert |multiset(r)| == |r| && |multiset(s)| == |s|;
    forall x | x in r ensures x in s {
      assert x in multiset(r);
    }
  }

  /** A draw from a population whose elements are told apart by `key`
      never repeats a key. */
  lemma DrawnKeysDistinct<T, K>(r: seq<T>, s: seq<T>, key: T -> K)
    requires DrawnFrom(r, s)
    requires forall a, b :: 0 <= a < b < |s| ==> key(s[a]) != key(s[b])
    ensures forall a, b :: 0 <= a < b < |r| ==> key(r[a]) != key(r[b])
  {
  }
}
