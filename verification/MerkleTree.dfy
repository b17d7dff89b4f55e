/**
 The storage prover's tree, path and verifier as functions of the leaves.
 Digests are an arbitrary type D and hashing two of them is an arbitrary function f; for
 the program, D is the 32-byte strings and f(l, r) is BLAKE3 of l followed by r.
 */
module MerkleTree {
  import opened Powers

  // ------------------------------------------------ Construction

  function NodeAt<D>(tree: seq<D>, p: nat): D
    requires |tree| > 0
  {
    if p < |tree| then tree[p] else tree[|tree| - 1]
  }

  /** The two nodes hashed from position p on; past the end the last node stands in. */
  function PairAt<D>(tree: seq<D>, p: nat): (D, D)
    requires |tree| > 0
  {
    (NodeAt(tree, p), if p + 1 < |tree| then tree[p + 1] else NodeAt(tree, p))
  }

  function Parent<D>(f: (D, D) -> D, tree: seq<D>, p: nat): D
    requires |tree| > 0
  {
    f(PairAt(tree, p).0, PairAt(tree, p).1)
  }

  function NextLevel<D>(f: (D, D) -> D, tree: seq<D>, offset: nat, count: nat): (level: seq<D>)
    requires |tree| > 0
    ensures |level| == count
  {
    seq(count, i requires 0 <= i < count => Parent(f, tree, offset + 2 * i))
  }

  /** The size with an odd level rounded up. */
  function Padded(size: nat): nat {
    if size % 2 != 0 then size + 1 else size
  }

  /** Adds the levels above the `size` last nodes, reading each level from `offset` on. */
  function Grow<D>(f: (D, D) -> D, tree: seq<D>, offset: nat, size: nat): (r: seq<D>)
    requires |tree| > 0
    ensures tree <= r
    decreases size
  {
    if size <= 1 then tree
    else
      var padded := Padded(size);
      Grow(f, tree + NextLevel(f, tree, offset, padded / 2), offset + padded, padded / 2)
  }

  function Tree<D>(f: (D, D) -> D, zero: D, leaves: seq<D>): (r: seq<D>)
    ensures |r| == if |leaves| == 0 then 1 else NodeCount(|leaves|)
    ensures |r| > 0
  {
    if |leaves| == 0 then [zero]
    else
      GrowSize(f, leaves, 0, |leaves|);
      Grow(f, leaves, 0, |leaves|)
  }

  function Last<D>(s: seq<D>): D
    requires |s| > 0
  {
    s[|s| - 1]
  }

  // ------------------------------------------------ Sizes

  function Half(n: nat): nat {
    (n + 1) / 2
  }

  /** The sum of the level sizes n, ceil(n/2), ceil(n/4), ... down to one. */
  function NodeCount(n: nat): nat {
    if n <= 1 then n else n + NodeCount(Half(n))
  }

  /** The number of levels above the leaves. */
  function Height(n: nat): nat {
    if n <= 1 then 0 else 1 + Height(Half(n))
  }

  predicate IsPow2(n: nat) {
    n == 1 || (n > 1 && n % 2 == 0 && IsPow2(n / 2))
  }

  lemma {:induction false} IsPow2Means(n: nat)
    ensures IsPow2(n) <==> exists k: nat :: n == Pow2(k)
  {
    if IsPow2(n) {
      if n == 1 {
        assert n == Pow2(0);
      } else {
        IsPow2Means(n / 2);
        var k: nat :| n / 2 == Pow2(k);
        assert n == Pow2(k + 1);
      }
    } else {
      forall k: nat ensures n != Pow2(k) {
        Pow2IsPow2(k);
      }
    }
  }

  lemma {:induction false} Pow2IsPow2(k: nat)
    ensures IsPow2(Pow2(k)) && Pow2(k) >= 1
  {
    if k > 0 {
      Pow2IsPow2(k - 1);
      assert Pow2(k) / 2 == Pow2(k - 1);
    }
  }

  /** Height(n) is the base-2 logarithm of n, rounded up. */
  lemma {:induction false} HeightIsLog(n: nat)
    requires n >= 1
    ensures n <= Pow2(Height(n))
    ensures n > 1 ==> Pow2(Height(n) - 1) < n
  {
    if n > 1 {
      HeightIsLog(Half(n));
    }
  }

  lemma HalfOfPadded(n: nat)
    ensures Padded(n) / 2 == Half(n) && Padded(n) % 2 == 0
    ensures n > 1 ==> 0 < Half(n) < n
  {
  }

  lemma GrowStep<D>(f: (D, D) -> D, tree: seq<D>, offset: nat, size: nat)
    requires |tree| > 0 && size > 1
    ensures Grow(f, tree, offset, size)
         == Grow(f, tree + NextLevel(f, tree, offset, Half(size)), offset + Padded(size), Half(size))
  {
    HalfOfPadded(size);
  }

  lemma {:induction false} GrowSize<D>(f: (D, D) -> D, tree: seq<D>, offset: nat, size: nat)
    requires |tree| > 0 && size > 0
    ensures |Grow(f, tree, offset, size)| + size == |tree| + NodeCount(size)
    decreases size
  {
    if size > 1 {
      HalfOfPadded(size);
      GrowStep(f, tree, offset, size);
      var m := Half(size);
      GrowSize(f, tree + NextLevel(f, tree, offset, m), offset + Padded(size), m);
    }
  }

  // ------------------------------------------------ Path and verification

  /** The sibling whose node the path carries at this level, if any. */
  predicate HasSibling(idx: nat, nodes: nat) {
    idx % 2 == 1 || idx + 1 < nodes
  }

  function SiblingOf(idx: nat): nat {
    if idx % 2 == 0 then idx + 1 else idx - 1
  }

  function Path<D>(tree: seq<D>, idx: nat, start: nat, nodes: nat): (path: seq<D>)
    requires idx < nodes && start + NodeCount(nodes) <= |tree|
    ensures |path| <= Height(nodes)
    decreases nodes
  {
    if nodes <= 1 then []
    else
      (if HasSibling(idx, nodes) then [tree[start + SiblingOf(idx)]] else [])
      + Path(tree, idx / 2, start + nodes, Half(nodes))
  }

  lemma PathUp<D>(tree: seq<D>, idx: nat, start: nat, nodes: nat)
    requires idx < nodes && nodes > 1 && start + NodeCount(nodes) <= |tree|
    ensures idx / 2 < Half(nodes) < nodes && start + nodes + NodeCount(Half(nodes)) <= |tree|
    ensures HasSibling(idx, nodes) ==> SiblingOf(idx) < nodes && start + SiblingOf(idx) < |tree|
    ensures Path(tree, idx, start, nodes) ==
      (if HasSibling(idx, nodes) then [tree[start + SiblingOf(idx)]] else [])
      + Path(tree, idx / 2, start + nodes, Half(nodes))
  {
  }

  /** A path collected up to one level continues with that level's sibling. */
  lemma PathContinues<D>(done: seq<D>, tree: seq<D>, idx: nat, start: nat, nodes: nat)
    requires idx < nodes && nodes > 1 && start + NodeCount(nodes) <= |tree|
    ensures idx / 2 < Half(nodes) < nodes && start + nodes + NodeCount(Half(nodes)) <= |tree|
    ensures HasSibling(idx, nodes) ==> SiblingOf(idx) < nodes && start + SiblingOf(idx) < |tree|
    ensures done + Path(tree, idx, start, nodes) ==
      (if HasSibling(idx, nodes) then done + [tree[start + SiblingOf(idx)]] else done)
      + Path(tree, idx / 2, start + nodes, Half(nodes))
  {
    PathUp(tree, idx, start, nodes);
    var rest := Path(tree, idx / 2, start + nodes, Half(nodes));
    if HasSibling(idx, nodes) {
      var x := tree[start + SiblingOf(idx)];
      assert done + ([x] + rest) == (done + [x]) + rest;
    } else {
      assert [] + rest == rest;
    }
  }

  function Hashed<D>(f: (D, D) -> D, cur: D, idx: nat, sibling: D): D {
    if idx % 2 == 0 then f(cur, sibling) else f(sibling, cur)
  }

  function Fold<D>(f: (D, D) -> D, cur: D, idx: nat, path: seq<D>): D
    decreases |path|
  {
    if |path| == 0 then cur else Fold(f, Hashed(f, cur, idx, path[0]), idx / 2, path[1..])
  }

  lemma {:induction false} FoldSnoc<D>(f: (D, D) -> D, cur: D, idx: nat, path: seq<D>, k: nat)
    requires k < |path|
    ensures Fold(f, cur, idx, path[..k + 1]) == Hashed(f, Fold(f, cur, idx, path[..k]), Shift(idx, k), path[k])
    decreases k
  {
    if k == 0 {
      assert path[..1][1..] == [];
    } else {
      var next := Hashed(f, cur, idx, path[0]);
      FoldSnoc(f, next, idx / 2, path[1..], k - 1);
      assert path[..k + 1][1..] == path[1..][..k] && path[..k][1..] == path[1..][..k - 1];
    }
  }

  /** The index after k halvings. */
  function Shift(idx: nat, k: nat): nat {
    if k == 0 then idx else Shift(idx / 2, k - 1)
  }

  lemma {:induction false} ShiftSnoc(idx: nat, k: nat)
    ensures Shift(idx, k + 1) == Shift(idx, k) / 2
  {
    if k > 0 {
      ShiftSnoc(idx / 2, k - 1);
    }
  }

  /** The verifier accepts the leaf's path in the tree over these leaves. */
  predicate Complete<D(==)>(f: (D, D) -> D, zero: D, leaves: seq<D>, idx: nat)
    requires idx < |leaves|
  {
    var tree := Tree(f, zero, leaves);
    Fold(f, leaves[idx], idx, Path(tree, idx, 0, |leaves|)) == Last(tree)
  }
}
