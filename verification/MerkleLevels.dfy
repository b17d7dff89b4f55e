/**
 Which value an accepted proof shows. The verifier checks neither the length of the path nor the
 number of chunks, so the length decides: a full path shows a leaf, a shorter one a node above the
 leaves, a longer one a value hashed into a leaf.
 */
module MerkleLevels {
  import opened Powers
  import opened MerkleTree
  import opened MerkleTheorems

  // ------------------------------------------------ Levels of a power-of-two tree

  lemma Pow2Halves(n: nat)
    requires IsPow2(n) && n > 1
    ensures n % 2 == 0 && IsPow2(n / 2) && Half(n) == n / 2 && Height(n) == Height(n / 2) + 1
  {
  }

  lemma {:induction false} HeightOfPow2(n: nat)
    requires IsPow2(n)
    ensures n == Pow2(Height(n))
  {
    if n > 1 {
      Pow2Halves(n);
      HeightOfPow2(n / 2);
    }
  }

  /** The nodes `j` levels above the leaves. */
  function LevelUp<D>(f: (D, D) -> D, leaves: seq<D>, j: nat): (level: seq<D>)
    requires IsPow2(|leaves|) && j <= Height(|leaves|)
    ensures IsPow2(|level|) && |level| > 0 && Height(|level|) == Height(|leaves|) - j
  {
    if j == 0 then leaves
    else
      var below := LevelUp(f, leaves, j - 1);
      Pow2Halves(|below|);
      Pairs(f, below)
  }

  lemma {:induction false} RootOfLevel<D>(f: (D, D) -> D, leaves: seq<D>, j: nat)
    requires IsPow2(|leaves|) && j <= Height(|leaves|)
    ensures Root(f, LevelUp(f, leaves, j)) == Root(f, leaves)
  {
    if j > 0 {
      RootOfLevel(f, leaves, j - 1);
      RootOfPairs(f, LevelUp(f, leaves, j - 1));
    }
  }

  lemma {:induction false} FullPath<D>(tree: seq<D>, idx: nat, start: nat, nodes: nat)
    requires IsPow2(nodes) && idx < nodes && start + NodeCount(nodes) <= |tree|
    ensures |Path(tree, idx, start, nodes)| == Height(nodes)
    decreases nodes
  {
    if nodes > 1 {
      Pow2Halves(nodes);
      PathStep(tree, idx, start, nodes);
      FullPath(tree, idx / 2, start + nodes, Half(nodes));
    }
  }

  /** The path the prover would give for a node of this level, were it the level of leaves. */
  function Honest<D>(f: (D, D) -> D, zero: D, level: seq<D>, idx: nat): seq<D>
    requires idx < |level|
  {
    Path(Tree(f, zero, level), idx, 0, |level|)
  }

  /** Every node of the tree has an accepted proof at its place in its level, shorter the higher it lies. */
  lemma InnerNodeAccepted<D>(f: (D, D) -> D, zero: D, leaves: seq<D>, j: nat, idx: nat)
    requires IsPow2(|leaves|) && j <= Height(|leaves|) && idx < |LevelUp(f, leaves, j)|
    ensures var level := LevelUp(f, leaves, j);
      && |Honest(f, zero, level, idx)| == Height(|leaves|) - j
      && Fold(f, level[idx], idx, Honest(f, zero, level, idx)) == Last(Tree(f, zero, leaves))
  {
    var level := LevelUp(f, leaves, j);
    PowerOfTwoComplete(f, zero, leaves, 0);
    PowerOfTwoComplete(f, zero, level, idx);
    RootOfLevel(f, leaves, j);
    FullPath(Tree(f, zero, level), idx, 0, |level|);
  }

  // ------------------------------------------------ The index of a proof

  lemma Twice(m: nat, q: nat)
    ensures (2 * m) * q == 2 * (m * q)
  {
  }

  lemma Divided(idx: nat, m: nat) returns (q: nat, r: nat)
    requires m > 0
    ensures idx == 2 * (m * q) + r && r < 2 * m && r == idx % (2 * m)
  {
    q, r := idx / (2 * m), idx % (2 * m);
    Twice(m, q);
  }

  lemma ModHalf(idx: nat, m: nat)
    requires m > 0
    ensures (idx % (2 * m)) / 2 == (idx / 2) % m && (idx % (2 * m)) % 2 == idx % 2
  {
    var q, r := Divided(idx, m);
    Halves(m * q, r);
    ModUnique(idx / 2, m, q, r / 2);
  }

  lemma Halves(half: nat, r: nat)
    ensures (2 * half + r) / 2 == half + r / 2 && (2 * half + r) % 2 == r % 2
  {
  }

  lemma ModUnique(x: nat, m: nat, q: nat, r: nat)
    requires m > 0 && x == m * q + r && r < m
    ensures x % m == r
  {
    var q', r' := x / m, x % m;
    assert x == m * q' + r';
    if q < q' {
      Multiples(m, q, q');
    } else if q' < q {
      Multiples(m, q', q);
    }
  }

  lemma {:induction false} Multiples(m: nat, a: nat, b: nat)
    requires a < b
    ensures m * a + m <= m * b
    decreases b
  {
    assert m * b == m * (b - 1) + m;
    if a < b - 1 { Multiples(m, a, b - 1); }
  }

  lemma {:induction false} Pow2Positive(k: nat)
    ensures Pow2(k) > 0
  {
    if k > 0 { Pow2Positive(k - 1); }
  }

  /** The verifier looks at as many bits of the index as the path is long. */
  lemma {:induction false} FoldLowBits<D>(f: (D, D) -> D, cur: D, idx: nat, path: seq<D>)
    ensures Pow2(|path|) > 0
    ensures Fold(f, cur, idx, path) == Fold(f, cur, idx % Pow2(|path|), path)
    decreases |path|
  {
    Pow2Positive(|path|);
    if |path| > 0 {
      var m := Pow2(|path| - 1);
      Pow2Positive(|path| - 1);
      ModHalf(idx, m);
      var next := Hashed(f, cur, idx, path[0]);
      FoldLowBits(f, next, idx / 2, path[1..]);
      FoldLowBits(f, next, (idx % (2 * m)) / 2, path[1..]);
    }
  }

  lemma {:induction false} FoldConcat<D>(f: (D, D) -> D, cur: D, idx: nat, p: seq<D>, q: seq<D>)
    ensures Fold(f, cur, idx, p + q) == Fold(f, Fold(f, cur, idx, p), Shift(idx, |p|), q)
    decreases |p|
  {
    if |p| == 0 {
      assert p + q == q;
    } else {
      FoldConcat(f, Hashed(f, cur, idx, p[0]), idx / 2, p[1..], q);
      assert (p + q)[1..] == p[1..] + q;
    }
  }

  lemma FoldSplit<D>(f: (D, D) -> D, cur: D, idx: nat, path: seq<D>, d: nat)
    requires d <= |path|
    ensures Fold(f, cur, idx, path) == Fold(f, Fold(f, cur, idx, path[..d]), Shift(idx, d), path[d..])
  {
    assert path == path[..d] + path[d..];
    FoldConcat(f, cur, idx, path[..d], path[d..]);
  }

  // ------------------------------------------------ What is accepted

  /** The collision between a proof and the honest one of the same length for a node of this level. */
  function LevelCollision<D(==)>(f: (D, D) -> D, zero: D, level: seq<D>, slot: nat, leaf: D, path: seq<D>)
    : ((D, D), (D, D))
    requires slot < |level| && |path| == |Honest(f, zero, level, slot)|
  {
    Collision(f, leaf, path, level[slot], Honest(f, zero, level, slot), slot)
  }

  /** The value is the level's node at this index, counted around, or a collision is named. */
  ghost predicate IsNode<D>(f: (D, D) -> D, zero: D, level: seq<D>, idx: nat, leaf: D, path: seq<D>)
    requires |level| > 0
  {
    var slot := idx % |level|;
    || leaf == level[slot]
    || (|path| == |Honest(f, zero, level, slot)|
        && Collides(f, LevelCollision(f, zero, level, slot, leaf, path).0,
                    LevelCollision(f, zero, level, slot, leaf, path).1))
  }

  /**
   Against a power-of-two tree, an accepted proof whose path is `j` short shows the node `j` levels
   above the leaves, or a collision is named; for any index, in range or not.
   */
  lemma AcceptedIsNode<D>(f: (D, D) -> D, zero: D, leaves: seq<D>, j: nat, idx: nat, leaf: D, path: seq<D>)
    requires IsPow2(|leaves|) && j <= Height(|leaves|) && |path| == Height(|leaves|) - j
    requires Fold(f, leaf, idx, path) == Last(Tree(f, zero, leaves))
    ensures IsNode(f, zero, LevelUp(f, leaves, j), idx, leaf, path)
  {
    var level := LevelUp(f, leaves, j);
    HeightOfPow2(|level|);
    FoldLowBits(f, leaf, idx, path);
    InnerNodeAccepted(f, zero, leaves, j, idx % |level|);
    SameFoldIsNode(f, zero, level, idx, leaf, path);
  }

  lemma SameFoldIsNode<D>(f: (D, D) -> D, zero: D, level: seq<D>, idx: nat, leaf: D, path: seq<D>)
    requires |level| > 0
    requires var slot := idx % |level|;
      && |path| == |Honest(f, zero, level, slot)|
      && Fold(f, leaf, slot, path) == Fold(f, level[slot], slot, Honest(f, zero, level, slot))
    ensures IsNode(f, zero, level, idx, leaf, path)
  {
    var slot := idx % |level|;
    Binding(f, leaf, path, level[slot], Honest(f, zero, level, slot), slot);
  }

  /**
   An accepted leaf with a path as long as the tree is high is the stored one, or a collision is
   named. The height follows from the number of chunks, so a caller can check the length first.
   */
  lemma AcceptedLeafIsStored<D>(f: (D, D) -> D, zero: D, leaves: seq<D>, idx: nat, leaf: D, path: seq<D>)
    requires IsPow2(|leaves|) && |path| == Height(|leaves|)
    requires Fold(f, leaf, idx, path) == Last(Tree(f, zero, leaves))
    ensures IsNode(f, zero, leaves, idx, leaf, path)
  {
    AcceptedIsNode(f, zero, leaves, 0, idx, leaf, path);
  }

  /** With a path `d` too long, what the first `d` siblings lead to is the stored leaf, or a collision is named. */
  lemma AcceptedBelowLeaf<D>(f: (D, D) -> D, zero: D, leaves: seq<D>, d: nat, idx: nat, leaf: D, path: seq<D>)
    requires IsPow2(|leaves|) && |path| == Height(|leaves|) + d
    requires Fold(f, leaf, idx, path) == Last(Tree(f, zero, leaves))
    ensures IsNode(f, zero, leaves, Shift(idx, d), Fold(f, leaf, idx, path[..d]), path[d..])
  {
    FoldSplit(f, leaf, idx, path, d);
    AcceptedLeafIsStored(f, zero, leaves, Shift(idx, d), Fold(f, leaf, idx, path[..d]), path[d..]);
  }

  // ------------------------------------------------ Other path lengths do not show leaves

  predicate Accepts<D(==)>(f: (D, D) -> D, zero: D, leaves: seq<D>, idx: nat, leaf: D, path: seq<D>) {
    Fold(f, leaf, idx, path) == Last(Tree(f, zero, leaves))
  }

  function Alike<D>(n: nat, t: D): (s: seq<D>)
    ensures |s| == n && forall i | 0 <= i < n :: s[i] == t
  {
    seq(n, i => t)
  }

  lemma FoldAround<D>(f: (D, D) -> D, cur: D, idx: nat, path: seq<D>, size: nat)
    requires size == Pow2(|path|)
    ensures size > 0 && Fold(f, cur, idx, path) == Fold(f, cur, idx % size, path)
  {
    FoldLowBits(f, cur, idx, path);
  }

  /** A level's node folds to the same value from any index with the same low bits. */
  lemma NodeAround<D>(f: (D, D) -> D, level: seq<D>, slot: nat, idx: nat, path: seq<D>)
    requires IsPow2(|level|) && |path| == Height(|level|) && slot < |level| && idx % |level| == slot
    ensures Fold(f, level[slot], idx, path) == Fold(f, level[slot], slot, path)
  {
    HeightOfPow2(|level|);
    FoldAround(f, level[slot], idx, path, |level|);
  }

  /** The first node of a level is accepted at index 0 and at the first index that comes around to it. */
  lemma FirstAcceptedTwice<D>(f: (D, D) -> D, zero: D, leaves: seq<D>, j: nat, level: seq<D>)
    requires IsPow2(|leaves|) && j <= Height(|leaves|) && level == LevelUp(f, leaves, j)
    ensures var path := Honest(f, zero, level, 0);
      && |path| == Height(|leaves|) - j
      && Accepts(f, zero, leaves, 0, level[0], path) && Accepts(f, zero, leaves, |level|, level[0], path)
  {
    InnerNodeAccepted(f, zero, leaves, j, 0);
    ModSelf(|level|);
    NodeAround(f, level, 0, |level|, Honest(f, zero, level, 0));
  }

  lemma ModSelf(n: nat)
    requires n > 0
    ensures 0 % n == 0 && n % n == 0
  {
  }

  lemma ModBelow(i: nat, n: nat)
    requires i < n
    ensures i % n == i
  {
  }

  lemma {:induction false} LevelSize<D>(f: (D, D) -> D, leaves: seq<D>, j: nat)
    requires IsPow2(|leaves|) && 0 < j <= Height(|leaves|)
    ensures |LevelUp(f, leaves, j)| < |leaves|
  {
    Pow2Halves(|LevelUp(f, leaves, j - 1)|);
    if j > 1 { LevelSize(f, leaves, j - 1); }
  }

  /** Where the two indices have different leaves, the node is not the one stored at one of them. */
  lemma NotStoredTwice<D>(f: (D, D) -> D, zero: D, leaves: seq<D>, j: nat, level: seq<D>) returns (idx: nat)
    requires IsPow2(|leaves|) && 0 < j <= Height(|leaves|) && level == LevelUp(f, leaves, j)
    requires |level| < |leaves| && leaves[0] != leaves[|level|]
    ensures idx < |leaves| && level[0] != leaves[idx]
    ensures Accepts(f, zero, leaves, idx, level[0], Honest(f, zero, level, 0))
  {
    FirstAcceptedTwice(f, zero, leaves, j, level);
    idx := if level[0] == leaves[0] then |level| else 0;
  }

  /** The prover's path for a leaf begins with a node of the leaves' level. */
  lemma HonestFirst<D>(f: (D, D) -> D, zero: D, level: seq<D>, idx: nat)
    requires IsPow2(|level|) && |level| > 1 && idx < |level|
    ensures |Honest(f, zero, level, idx)| > 0 && Honest(f, zero, level, idx)[0] in level
  {
    Pow2Halves(|level|);
    var tree := Tree(f, zero, level);
    PathStep(tree, idx, 0, |level|);
    assert [] + level == level;
    InLevel(tree, [], level, SiblingOf(idx));
    assert level[SiblingOf(idx)] in level;
  }

  lemma OddLeaves<D>(a: D, b: D, n: nat, i: nat)
    requires 0 < i < n
    ensures OddOneOut(a, b, n)[0] == a && OddOneOut(a, b, n)[i] == b
  {
  }

  /**
   A path too short is accepted for one value at two indices whose leaves differ, so at one of them
   for a value that is not stored there; whatever the hash.
   */
  lemma ShortPathFails<D>(f: (D, D) -> D, zero: D, leaves: seq<D>, j: nat, a: D, b: D)
    returns (idx: nat, leaf: D, path: seq<D>)
    requires IsPow2(|leaves|) && 0 < j <= Height(|leaves|) && a != b && leaves == OddOneOut(a, b, |leaves|)
    ensures |path| == Height(|leaves|) - j && Accepts(f, zero, leaves, idx, leaf, path)
    ensures idx < |leaves| && leaf != leaves[idx]
    ensures leaf in LevelUp(f, leaves, j) && (|path| > 0 ==> path[0] in LevelUp(f, leaves, j))
  {
    var level := LevelUp(f, leaves, j);
    LevelSize(f, leaves, j);
    OddLeaves(a, b, |leaves|, |level|);
    idx := NotStoredTwice(f, zero, leaves, j, level);
    leaf, path := level[0], Honest(f, zero, level, 0);
    FullPath(Tree(f, zero, level), 0, 0, |level|);
    if |path| > 0 { HonestFirst(f, zero, level, 0); }
  }

  lemma {:induction false} ShiftOfZero(k: nat)
    ensures Shift(0, k) == 0
  {
    if k > 0 { ShiftOfZero(k - 1); }
  }

  /** What a pair of values and `more` further siblings hash to. */
  function Buried<D>(f: (D, D) -> D, a: D, b: D, more: nat): D {
    Fold(f, f(a, b), 0, Alike(more, b))
  }

  lemma BuriedAccepted<D>(f: (D, D) -> D, zero: D, n: nat, more: nat, a: D, b: D, idx: nat)
    returns (path: seq<D>)
    requires IsPow2(n) && idx < 2
    ensures |path| == Height(n) + 1 + more && path[0] == if idx == 0 then b else a
    ensures Accepts(f, zero, Alike(n, Buried(f, a, b, more)), idx, if idx == 0 then a else b, path)
  {
    var leaves := Alike(n, Buried(f, a, b, more));
    var tail := Alike(more, b) + Honest(f, zero, leaves, 0);
    InnerNodeAccepted(f, zero, leaves, 0, 0);
    ShiftOfZero(more);
    FoldConcat(f, f(a, b), 0, Alike(more, b), Honest(f, zero, leaves, 0));
    if idx == 0 {
      path := [b] + tail;
      FoldCons(f, a, 0, b, tail);
    } else {
      path := [a] + tail;
      FoldCons(f, b, 1, a, tail);
    }
  }

  /** A path too long is accepted for both of two values hashed into a leaf, of which one at most is stored. */
  lemma LongPathFails<D>(f: (D, D) -> D, zero: D, n: nat, k: nat, a: D, b: D)
    returns (idx: nat, leaf: D, path: seq<D>)
    requires IsPow2(n) && k > Height(n) && a != b
    ensures |path| == k && leaf in {a, b} && path[0] in {a, b}
    ensures var leaves := Alike(n, Buried(f, a, b, k - Height(n) - 1));
      Accepts(f, zero, leaves, idx, leaf, path) && leaf != leaves[idx % n]
  {
    var more := k - Height(n) - 1;
    idx := if a == Buried(f, a, b, more) then 1 else 0;
    leaf := if idx == 0 then a else b;
    path := BuriedAccepted(f, zero, n, more, a, b, idx);
  }

  /** The root passes as a leaf of a two-leaf tree, at both indices, with an empty path; it is one of them at most. */
  lemma RootPassesAsLeaf<D>(f: (D, D) -> D, zero: D, a: D, b: D)
    requires a != b
    ensures Accepts(f, zero, [a, b], 0, f(a, b), []) && Accepts(f, zero, [a, b], 1, f(a, b), [])
    ensures f(a, b) != a || f(a, b) != b
  {
    PowerOfTwoComplete(f, zero, [a, b], 0);
    assert [a, b][..1] == [a] && [a, b][1..] == [b];
  }
}
