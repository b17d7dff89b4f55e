/** What the stored root commits to, for every number of leaves. */
module MerkleRoots {
  import opened MerkleTree
  import opened MerkleTheorems

  /** The largest power of two that divides n, and what is left of n. */
  function TwoPart(n: nat): (p: nat)
    requires n > 0
    ensures IsPow2(p) && 0 < p <= n
  {
    if n % 2 == 1 then 1 else 2 * TwoPart(n / 2)
  }

  function OddPart(n: nat): (m: nat)
    requires n > 0
    ensures m % 2 == 1
  {
    if n % 2 == 1 then n else OddPart(n / 2)
  }

  lemma {:induction false} Parts(n: nat)
    requires n > 0
    ensures n == TwoPart(n) * OddPart(n)
    ensures OddPart(n) == 1 <==> IsPow2(n)
    ensures IsPow2(n) <==> TwoPart(n) == n
  {
    if n % 2 == 0 {
      Parts(n / 2);
      Doubled(TwoPart(n / 2), OddPart(n / 2));
    }
  }

  lemma Doubled(p: nat, m: nat)
    ensures (2 * p) * m == 2 * (p * m)
  {
  }

  /** A value hashed with itself, k times over. */
  function Self<D>(f: (D, D) -> D, v: D, k: nat): D {
    if k == 0 then v else Self(f, f(v, v), k - 1)
  }

  // ------------------------------------------------ From the first odd level on

  /** The builder reads at the last node or past it when it makes the last node of the next level. */
  predicate ReadsPast(length: nat, offset: nat, size: nat) {
    offset > length - size || (offset == length - size && size % 2 == 1)
  }

  lemma LastOfNext<D>(f: (D, D) -> D, tree: seq<D>, offset: nat, size: nat)
    requires 2 <= size <= |tree| && ReadsPast(|tree|, offset, size)
    ensures Half(size) > 0
    ensures Last(tree + NextLevel(f, tree, offset, Half(size))) == f(Last(tree), Last(tree))
  {
    var p := offset + 2 * (Half(size) - 1);
    assert p >= |tree| - 1;
    assert NodeAt(tree, p) == Last(tree);
  }

  lemma {:induction false} SelfFromOdd<D>(f: (D, D) -> D, tree: seq<D>, offset: nat, size: nat)
    requires 1 <= size <= |tree| && ReadsPast(|tree|, offset, size)
    ensures Last(Grow(f, tree, offset, size)) == Self(f, Last(tree), Height(size))
    decreases size
  {
    if size > 1 {
      var next := tree + NextLevel(f, tree, offset, Half(size));
      HalfOfPadded(size);
      GrowStep(f, tree, offset, size);
      LastOfNext(f, tree, offset, size);
      SelfFromOdd(f, next, offset + Padded(size), Half(size));
    }
  }

  // ------------------------------------------------ While levels are even

  /** The last `p` values. */
  function Tail<D>(s: seq<D>, p: nat): (t: seq<D>)
    requires p <= |s|
    ensures |t| == p
  {
    s[|s| - p..]
  }

  lemma PairsOfTail<D>(f: (D, D) -> D, level: seq<D>, p: nat)
    requires |level| % 2 == 0 && 2 * p <= |level|
    ensures Pairs(f, Tail(level, 2 * p)) == Tail(Pairs(f, level), p)
  {
  }

  lemma TailUp<D>(f: (D, D) -> D, level: seq<D>)
    requires |level| > 0 && |level| % 2 == 0
    ensures TwoPart(|level|) == 2 * TwoPart(|level| / 2) && |Pairs(f, level)| == |level| / 2
    ensures Root(f, Tail(level, TwoPart(|level|))) == Root(f, Tail(Pairs(f, level), TwoPart(|level| / 2)))
  {
    var p := TwoPart(|level| / 2);
    PairsOfTail(f, level, p);
    RootOfPairs(f, Tail(level, 2 * p));
  }

  lemma {:induction false} RootFromLevel<D>(f: (D, D) -> D, below: seq<D>, level: seq<D>)
    requires |level| > 0
    ensures Last(Grow(f, below + level, |below|, |level|))
         == Self(f, Root(f, Tail(level, TwoPart(|level|))), Height(OddPart(|level|)))
    decreases |level|
  {
    if |level| % 2 == 0 {
      GrowEven(f, below, level);
      TailUp(f, level);
      RootFromLevel(f, below + level, Pairs(f, level));
    } else {
      SelfFromOdd(f, below + level, |below|, |level|);
    }
  }

  /**
   For every number n = p * m of leaves, p a power of two and m odd, the stored root is the Merkle
   root of the last p leaves, hashed with itself as often as a tree over m leaves is high.
   */
  lemma RootOfTail<D>(f: (D, D) -> D, zero: D, leaves: seq<D>)
    requires |leaves| > 0
    ensures Last(Tree(f, zero, leaves))
         == Self(f, Root(f, Tail(leaves, TwoPart(|leaves|))), Height(OddPart(|leaves|)))
  {
    assert [] + leaves == leaves;
    RootFromLevel(f, [], leaves);
  }

  /** So the root commits to those leaves only: all others can be exchanged, whatever the hash. */
  lemma OnlyTailCommitted<D>(f: (D, D) -> D, zero: D, a: seq<D>, b: seq<D>)
    requires |a| == |b| > 0 && Tail(a, TwoPart(|a|)) == Tail(b, TwoPart(|a|))
    ensures Last(Tree(f, zero, a)) == Last(Tree(f, zero, b))
    ensures !IsPow2(|a|) ==> TwoPart(|a|) < |a|
  {
    RootOfTail(f, zero, a);
    RootOfTail(f, zero, b);
    Parts(|a|);
  }

  /** With a power-of-two number of leaves these are all of them. */
  lemma AllCommitted<D>(f: (D, D) -> D, zero: D, leaves: seq<D>)
    requires IsPow2(|leaves|)
    ensures TwoPart(|leaves|) == |leaves| && Last(Tree(f, zero, leaves)) == Root(f, leaves)
  {
    Parts(|leaves|);
    RootOfTail(f, zero, leaves);
    assert Tail(leaves, |leaves|) == leaves;
  }
}
