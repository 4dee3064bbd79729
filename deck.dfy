/** The card values dealt at the start of a game: every value 1..totalPairs twice,
    rearranged by a shuffle. */
module Deck {

  /** Number of pairs on a size×size board. Java's `/` truncates toward zero, which
      agrees with Dafny's `/` here because size*size is never negative. */
  function TotalPairs(size: int): nat
  {
    SquareNonNegative(size);
    (size * size) / 2
  }

  lemma SquareNonNegative(size: int)
    ensures size * size >= 0
  {
    if size < 0 {
      assert size * size == (-size) * (-size);
    }
  }

  /** An odd board side loses one cell: 5×5 gives 12 pairs, that is 24 cards. */
  lemma OddSizeDropsOneCell(size: int)
    ensures size % 2 == 1 ==> 2 * TotalPairs(size) == size * size - 1
    ensures size % 2 == 0 ==> 2 * TotalPairs(size) == size * size
  {
    var h, r := size / 2, size % 2;
    assert size == 2 * h + r;
    assert size * size == 2 * (2 * h * h + 2 * h * r) + r * r by {
      assert size * size == (2 * h + r) * (2 * h + r);
    }
    if r == 1 {
      assert size * size == 2 * (2 * h * h + 2 * h) + 1;
    } else {
      assert size * size == 2 * (2 * h * h);
    }
  }

  /** The list the value loop of `initializeCards` produces: 1, 1, 2, 2, ..., n, n. */
  function PairValues(n: nat): (vs: seq<int>)
    ensures |vs| == 2 * n
  {
    if n == 0 then [] else PairValues(n - 1) + [n, n]
  }

  /** Every value in 1..n occurs exactly twice in `vs`, and no other value occurs. */
  ghost predicate EachValueTwice(vs: seq<int>, n: int)
  {
    forall v :: multiset(vs)[v] == if 1 <= v <= n then 2 else 0
  }

  lemma {:induction false} PairValuesEachTwice(n: nat)
    ensures EachValueTwice(PairValues(n), n)
  {
    if n > 0 {
      PairValuesEachTwice(n - 1);
      assert multiset(PairValues(n)) == multiset(PairValues(n - 1)) + multiset{n, n};
    }
  }

  lemma SameCounts(a: seq<int>, b: seq<int>, n: int)
    requires EachValueTwice(a, n) && EachValueTwice(b, n)
    ensures multiset(a) == multiset(b)
  {
    var ma, mb := multiset(a), multiset(b);
    assert forall v :: ma[v] == mb[v];
  }

  /** A list holding each of 1..n twice has exactly 2n entries. */
  lemma EachValueTwiceLength(vs: seq<int>, n: nat)
    requires EachValueTwice(vs, n)
    ensures |vs| == 2 * n
  {
    PairValuesEachTwice(n);
    var paired := PairValues(n);
    SameCounts(vs, paired, n);
    assert |vs| == |multiset(vs)| == |multiset(paired)| == |paired|;
  }

  /** The value loop of `initializeCards`. */
  method ListPairValues(totalPairs: nat) returns (cardValues: seq<int>)
    ensures cardValues == PairValues(totalPairs)
    ensures EachValueTwice(cardValues, totalPairs)
  {
    cardValues := [];
    var i := 1;
    while i <= totalPairs
      invariant 1 <= i <= totalPairs + 1
      invariant cardValues == PairValues(i - 1)
    {
      cardValues := cardValues + [i];
      cardValues := cardValues + [i];
      i := i + 1;
    }
    PairValuesEachTwice(totalPairs);
  }

  /** 0, 1, ..., n-1: the positions of a list of length n. */
  function Positions(n: nat): seq<nat>
  {
    seq(n, k requires 0 <= k < n => k)
  }

  /** `p` lists each position 0..n-1 exactly once: one rearrangement a shuffle may choose. */
  ghost predicate IsPermutation(p: seq<nat>, n: nat)
  {
    multiset(p) == multiset(Positions(n))
  }

  lemma PermutationInRange(p: seq<nat>, n: nat)
    requires IsPermutation(p, n)
    ensures |p| == n && Below(p, n)
  {
    assert |p| == |multiset(p)| == |multiset(Positions(n))| == |Positions(n)|;
    forall k | 0 <= k < |p|
      ensures p[k] < n
    {
      assert p[k] in multiset(p);
      assert p[k] in multiset(Positions(n));
      assert p[k] in Positions(n);
    }
  }

  /** Every position in `p` is below `n`. */
  predicate Below(p: seq<nat>, n: nat)
  {
    forall k :: 0 <= k < |p| ==> p[k] < n
  }

  /** The entries of `vs` at the positions `p`, in that order. */
  function Pick(vs: seq<int>, p: seq<nat>): (r: seq<int>)
    requires Below(p, |vs|)
    ensures |r| == |p|
  {
    seq(|p|, k requires 0 <= k < |p| => vs[p[k]])
  }

  lemma PickConcat(vs: seq<int>, a: seq<nat>, b: seq<nat>)
    requires Below(a, |vs|)
    requires Below(b, |vs|)
    ensures Pick(vs, a + b) == Pick(vs, a) + Pick(vs, b)
  {
  }

  lemma RemoveAt(q: seq<nat>, m: nat, n: nat)
    requires m < |q| && Below(q, n)
    ensures q == q[..m] + [q[m]] + q[m + 1..]
    ensures multiset(q[..m] + q[m + 1..]) == multiset(q) - multiset{q[m]}
    ensures Below(q[..m], n) && Below(q[m + 1..], n) && Below(q[..m] + q[m + 1..], n)
  {
    assert q == q[..m] + [q[m]] + q[m + 1..];
    var rest := q[..m] + q[m + 1..];
    forall k | 0 <= k < |rest|
      ensures rest[k] < n
    {
      if k < m {
        assert rest[k] == q[k];
      } else {
        assert rest[k] == q[k + 1];
      }
    }
  }

  /** Picking by `q` gives the entry at position q[m] plus what picking by `q`
      without its entry m gives. */
  lemma PickAround(vs: seq<int>, q: seq<nat>, m: nat)
    requires Below(q, |vs|) && m < |q|
    ensures Below(q[..m] + q[m + 1..], |vs|)
    ensures multiset(Pick(vs, q)) == multiset{vs[q[m]]} + multiset(Pick(vs, q[..m] + q[m + 1..]))
  {
    RemoveAt(q, m, |vs|);
    PickConcat(vs, q[..m], q[m + 1..]);
    PickConcat(vs, q[..m] + [q[m]], q[m + 1..]);
    PickConcat(vs, q[..m], [q[m]]);
    assert Pick(vs, [q[m]]) == [vs[q[m]]];
  }

  /** Picking by two lists of positions that are rearrangements of each other gives
      two lists that are rearrangements of each other. */
  lemma {:induction false} PickRearranged(vs: seq<int>, p: seq<nat>, q: seq<nat>)
    requires Below(p, |vs|)
    requires Below(q, |vs|)
    requires multiset(p) == multiset(q)
    ensures multiset(Pick(vs, p)) == multiset(Pick(vs, q))
    decreases |p|
  {
    if |p| == 0 {
      assert |q| == |multiset(q)| == 0;
    } else {
      assert p[0] in multiset(q);
      var m :| 0 <= m < |q| && q[m] == p[0];
      RemoveAt(p, 0, |vs|);
      RemoveAt(q, m, |vs|);
      PickAround(vs, p, 0);
      PickAround(vs, q, m);
      PickRearranged(vs, p[..0] + p[1..], q[..m] + q[m + 1..]);
    }
  }

  /** `Collections.shuffle`, with the rearrangement it chose given as `p`:
      entry k of the result is entry p[k] of `vs`. */
  function Shuffle(vs: seq<int>, p: seq<nat>): (r: seq<int>)
    requires IsPermutation(p, |vs|)
    ensures |r| == |vs|
    ensures multiset(r) == multiset(vs)
  {
    PermutationInRange(p, |vs|);
    PickRearranged(vs, p, Positions(|vs|));
    assert Pick(vs, Positions(|vs|)) == vs;
    Pick(vs, p)
  }

  /** Whatever rearrangement the shuffle picks, the dealt values hold each of
      1..TotalPairs(size) exactly twice, so there are 2 * TotalPairs(size) of them. */
  lemma ShuffledValuesPaired(size: int, p: seq<nat>)
    requires IsPermutation(p, 2 * TotalPairs(size))
    ensures EachValueTwice(Shuffle(PairValues(TotalPairs(size)), p), TotalPairs(size))
    ensures |Shuffle(PairValues(TotalPairs(size)), p)| == 2 * TotalPairs(size)
  {
    PairValuesEachTwice(TotalPairs(size));
  }
}
