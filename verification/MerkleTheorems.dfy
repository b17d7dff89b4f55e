/** When proofs are accepted, and what an accepted proof binds. */
module MerkleTheorems {
  import opened MerkleTree

  // ------------------------------------------------ Completeness

  /** The Merkle root by halves: the root of the left half hashed with that of the right half. */
  function Root<D>(f: (D, D) -> D, leaves: seq<D>): D
    requires IsPow2(|leaves|)
    decreases |leaves|
  {
    if |leaves| == 1 then leaves[0]
    else f(Root(f, leaves[..|leaves| / 2]), Root(f, leaves[|leaves| / 2..]))
  }

  function Pairs<D>(f: (D, D) -> D, level: seq<D>): (r: seq<D>)
    requires |level| % 2 == 0
    ensures |r| == |level| / 2
  {
    seq(|level| / 2, i requires 0 <= i < |level| / 2 => f(level[2 * i], level[2 * i + 1]))
  }

  lemma PairsConcat<D>(f: (D, D) -> D, l: seq<D>, r: seq<D>)
    requires |l| % 2 == 0 && |r| % 2 == 0
    ensures Pairs(f, l + r) == Pairs(f, l) + Pairs(f, r)
  {
  }

  /** Hashing neighbours first and going by halves afterwards gives the same root. */
  lemma {:induction false} RootOfPairs<D>(f: (D, D) -> D, leaves: seq<D>)
    requires IsPow2(|leaves|) && |leaves| > 1
    ensures Root(f, leaves) == Root(f, Pairs(f, leaves))
    decreases |leaves|
  {
    var h := |leaves| / 2;
    var l, r := leaves[..h], leaves[h..];
    if h == 1 {
      assert Pairs(f, leaves) == [f(leaves[0], leaves[1])];
    } else {
      RootOfPairs(f, l);
      RootOfPairs(f, r);
      PairsConcat(f, l, r);
      assert leaves == l + r;
      var up := Pairs(f, leaves);
      assert |up| / 2 == |Pairs(f, l)|;
      assert up[..|up| / 2] == Pairs(f, l) && up[|up| / 2..] == Pairs(f, r);
    }
  }

  /** While every level is even, the builder reads exactly the level it pushed last. */
  lemma LevelIsPairs<D>(f: (D, D) -> D, below: seq<D>, level: seq<D>)
    requires |level| > 1 && |level| % 2 == 0
    ensures NextLevel(f, below + level, |below|, |level| / 2) == Pairs(f, level)
  {
  }

  /** At an even level every node has a sibling. */
  lemma PathStep<D>(tree: seq<D>, idx: nat, start: nat, nodes: nat)
    requires idx < nodes && nodes > 1 && nodes % 2 == 0 && start + NodeCount(nodes) <= |tree|
    ensures SiblingOf(idx) < nodes && nodes / 2 == Half(nodes) && idx / 2 < Half(nodes)
    ensures start + nodes + NodeCount(Half(nodes)) <= |tree|
    ensures Path(tree, idx, start, nodes)
         == [tree[start + SiblingOf(idx)]] + Path(tree, idx / 2, start + nodes, Half(nodes))
  {
    PathUp(tree, idx, start, nodes);
  }

  lemma PairsAt<D>(f: (D, D) -> D, level: seq<D>, idx: nat)
    requires |level| % 2 == 0 && idx < |level|
    ensures Hashed(f, level[idx], idx, level[SiblingOf(idx)]) == Pairs(f, level)[idx / 2]
  {
  }

  lemma FoldCons<D>(f: (D, D) -> D, cur: D, idx: nat, sibling: D, rest: seq<D>)
    ensures Fold(f, cur, idx, [sibling] + rest) == Fold(f, Hashed(f, cur, idx, sibling), idx / 2, rest)
  {
    assert ([sibling] + rest)[1..] == rest;
  }

  lemma GrowEven<D>(f: (D, D) -> D, below: seq<D>, level: seq<D>)
    requires |level| > 1 && |level| % 2 == 0
    ensures Grow(f, below + level, |below|, |level|)
         == Grow(f, (below + level) + Pairs(f, level), |below + level|, |level| / 2)
  {
    LevelIsPairs(f, below, level);
  }

  lemma {:induction false} PowerOfTwoRoot<D>(f: (D, D) -> D, below: seq<D>, level: seq<D>)
    requires IsPow2(|level|)
    ensures Last(Grow(f, below + level, |below|, |level|)) == Root(f, level)
    decreases |level|
  {
    if |level| > 1 {
      GrowEven(f, below, level);
      RootOfPairs(f, level);
      PowerOfTwoRoot(f, below + level, Pairs(f, level));
    }
  }

  lemma InLevel<D>(tree: seq<D>, below: seq<D>, level: seq<D>, i: nat)
    requires below + level <= tree && i < |level|
    ensures |below| + i < |tree| && tree[|below| + i] == level[i]
  {
    assert (below + level)[|below| + i] == level[i];
  }

  /** At an even level a leaf's fold continues from the parent node, one level up. */
  lemma FoldUp<D>(f: (D, D) -> D, tree: seq<D>, below: seq<D>, level: seq<D>, idx: nat)
    requires |level| > 1 && |level| % 2 == 0 && idx < |level| && below + level <= tree
    requires |below| + NodeCount(|level|) <= |tree|
    ensures |level| / 2 == Half(|level|) && idx / 2 < Half(|level|)
    ensures |below + level| + NodeCount(Half(|level|)) <= |tree|
    ensures Fold(f, level[idx], idx, Path(tree, idx, |below|, |level|))
         == Fold(f, Pairs(f, level)[idx / 2], idx / 2, Path(tree, idx / 2, |below + level|, Half(|level|)))
  {
    PathStep(tree, idx, |below|, |level|);
    InLevel(tree, below, level, SiblingOf(idx));
    PairsAt(f, level, idx);
    var rest := Path(tree, idx / 2, |below + level|, Half(|level|));
    FoldCons(f, level[idx], idx, level[SiblingOf(idx)], rest);
  }

  lemma {:induction false} PowerOfTwoFold<D>(f: (D, D) -> D, tree: seq<D>, below: seq<D>, level: seq<D>, idx: nat)
    requires IsPow2(|level|) && idx < |level|
    requires tree == Grow(f, below + level, |below|, |level|)
    requires |tree| == |below| + NodeCount(|level|)
    ensures Fold(f, level[idx], idx, Path(tree, idx, |below|, |level|)) == Root(f, level)
    decreases |level|
  {
    if |level| > 1 {
      var up := Pairs(f, level);
      GrowEven(f, below, level);
      RootOfPairs(f, level);
      FoldUp(f, tree, below, level, idx);
      PowerOfTwoFold(f, tree, below + level, up, idx / 2);
    }
  }

  lemma TreeGrows<D>(f: (D, D) -> D, zero: D, leaves: seq<D>)
    requires |leaves| > 0
    ensures Tree(f, zero, leaves) == Grow(f, [] + leaves, 0, |leaves|)
  {
    assert [] + leaves == leaves;
  }

  /** For a power-of-two number of leaves the stored root is the Merkle root and every proof is accepted. */
  lemma PowerOfTwoComplete<D>(f: (D, D) -> D, zero: D, leaves: seq<D>, idx: nat)
    requires IsPow2(|leaves|) && idx < |leaves|
    ensures Last(Tree(f, zero, leaves)) == Root(f, leaves)
    ensures Complete(f, zero, leaves, idx)
  {
    TreeGrows(f, zero, leaves);
    PowerOfTwoRoot(f, [], leaves);
    PowerOfTwoFold(f, Tree(f, zero, leaves), [], leaves, idx);
  }

  // ------------------------------------------------ Where completeness ends

  /** Different inputs that hash alike. */
  predicate Collides<D(==)>(f: (D, D) -> D, x: (D, D), y: (D, D)) {
    x != y && f(x.0, x.1) == f(y.0, y.1)
  }

  /** The last `size` nodes: the level pushed most recently. */
  function Top<D>(tree: seq<D>, size: nat): seq<D>
    requires size <= |tree|
  {
    tree[|tree| - size..]
  }

  ghost predicate UnlikeOthers<D>(level: seq<D>, v: D) {
    forall j | 1 <= j < |level| :: v != level[j]
  }

  /** The first position from `i` on at which the level holds `v`, or its length. */
  function FirstEqual<D(==)>(level: seq<D>, v: D, i: nat): (j: nat)
    requires i <= |level|
    ensures i <= j <= |level| && (j < |level| ==> level[j] == v)
    ensures forall k | i <= k < j :: level[k] != v
    decreases |level| - i
  {
    if i == |level| || level[i] == v then i else FirstEqual(level, v, i + 1)
  }

  /** Where the builder reads a level of `size` nodes, and where the first leaf's fold has got to by then. */
  datatype Stage<D> = Stage(tree: seq<D>, offset: nat, size: nat, v: D)

  predicate Valid<D>(l: Stage<D>) {
    2 <= l.size <= |l.tree|
  }

  /** The fold of the first leaf takes the level's second node. */
  function Mine<D>(l: Stage<D>): (D, D)
    requires Valid(l)
  {
    (l.v, Top(l.tree, l.size)[1])
  }

  function Pushed<D>(f: (D, D) -> D, l: Stage<D>): (level: seq<D>)
    requires Valid(l)
    ensures |level| == Half(l.size)
  {
    NextLevel(f, l.tree, l.offset, Half(l.size))
  }

  function Up<D>(f: (D, D) -> D, l: Stage<D>): (u: Stage<D>)
    requires Valid(l) && l.size >= 3
    ensures Valid(u) && u.size < l.size
  {
    Stage(l.tree + Pushed(f, l), l.offset + Padded(l.size), Half(l.size), f(Mine(l).0, Mine(l).1))
  }

  /**
   Follows the proof and the builder upwards, from a level on which the builder reads one place or
   more too far, to the first pair of different inputs that hash alike.
   */
  function SlipCollision<D(==)>(f: (D, D) -> D, l: Stage<D>): ((D, D), (D, D))
    requires Valid(l)
    decreases l.size
  {
    if l.size == 2 then (Mine(l), PairAt(l.tree, l.offset))
    else
      var i := FirstEqual(Pushed(f, l), f(Mine(l).0, Mine(l).1), 1);
      if i < Half(l.size) then (Mine(l), PairAt(l.tree, l.offset + 2 * i)) else SlipCollision(f, Up(f, l))
  }

  /** Where the fold of the first leaf's path ends. */
  function SpineEnd<D>(f: (D, D) -> D, l: Stage<D>): D
    requires Valid(l)
    decreases l.size
  {
    if l.size == 2 then f(Mine(l).0, Mine(l).1) else SpineEnd(f, Up(f, l))
  }

  /** What the builder makes of the stage. */
  function Built<D>(f: (D, D) -> D, l: Stage<D>): (g: seq<D>)
    requires Valid(l)
    ensures l.tree <= g
  {
    Grow(f, l.tree, l.offset, l.size)
  }

  lemma BuiltUp<D>(f: (D, D) -> D, l: Stage<D>)
    requires Valid(l) && l.size >= 3
    ensures Built(f, Up(f, l)) == Built(f, l)
  {
    GrowStep(f, l.tree, l.offset, l.size);
  }

  /** A value unlike every node but the first differs from what is hashed into the nodes above them. */
  lemma DiffersAbove<D>(tree: seq<D>, offset: nat, size: nat, v: D, i: nat)
    requires 2 <= size <= |tree| && offset >= |tree| - size
    requires UnlikeOthers(Top(tree, size), v)
    requires i >= 1 || offset > |tree| - size
    ensures PairAt(tree, offset + 2 * i).0 != v
  {
    var p := offset + 2 * i;
    var j := if p < |tree| then p - (|tree| - size) else size - 1;
    assert NodeAt(tree, p) == Top(tree, size)[j];
  }

  /** The path of index 0 takes the second node of every level. */
  lemma PathOfFirst<D>(tree: seq<D>, start: nat, nodes: nat)
    requires nodes > 1 && start + NodeCount(nodes) <= |tree|
    ensures 0 < Half(nodes) < nodes && start + nodes + NodeCount(Half(nodes)) <= |tree|
    ensures Path(tree, 0, start, nodes) == [tree[start + 1]] + Path(tree, 0, start + nodes, Half(nodes))
  {
  }

  lemma TopOfTwo<D>(f: (D, D) -> D, tree: seq<D>, offset: nat)
    requires |tree| >= 2
    ensures Grow(f, tree, offset, 2) == tree + [Parent(f, tree, offset)]
  {
    assert NextLevel(f, tree, offset, 1) == [Parent(f, tree, offset + 0)];
  }

  /** One level up, the fold of the first leaf's path starts from f(v, second node). */
  lemma FoldFirst<D>(f: (D, D) -> D, tree: seq<D>, g: seq<D>, size: nat, v: D)
    requires 2 <= size <= |tree| && tree <= g && |tree| - size + NodeCount(size) <= |g|
    ensures |tree| + NodeCount(Half(size)) <= |g| && Half(size) > 0
    ensures Fold(f, v, 0, Path(g, 0, |tree| - size, size))
         == Fold(f, f(v, Top(tree, size)[1]), 0, Path(g, 0, |tree|, Half(size)))
  {
    SecondOfTop(tree, g, size);
    FoldFirstAt(f, g, |tree| - size, size, v, Top(tree, size)[1]);
  }

  lemma FoldFirstAt<D>(f: (D, D) -> D, g: seq<D>, start: nat, nodes: nat, v: D, second: D)
    requires nodes > 1 && start + NodeCount(nodes) <= |g| && start + 1 < |g| && g[start + 1] == second
    ensures 0 < Half(nodes) < nodes && start + nodes + NodeCount(Half(nodes)) <= |g|
    ensures Fold(f, v, 0, Path(g, 0, start, nodes)) == Fold(f, f(v, second), 0, Path(g, 0, start + nodes, Half(nodes)))
  {
    PathOfFirst(g, start, nodes);
    FoldCons(f, v, 0, second, Path(g, 0, start + nodes, Half(nodes)));
  }

  lemma SecondOfTop<D>(tree: seq<D>, g: seq<D>, size: nat)
    requires 2 <= size <= |tree| && tree <= g
    ensures g[|tree| - size + 1] == Top(tree, size)[1]
  {
    assert tree[|tree| - size + 1] == Top(tree, size)[1];
  }

  /** The slip grows by one at an odd level and is never made up. */
  lemma SlipGrows(length: nat, offset: nat, size: nat)
    requires 2 <= size <= length && offset >= length - size
    requires offset > length - size || !IsPow2(size)
    ensures offset + Padded(size) >= length
    ensures offset + Padded(size) > length || !IsPow2(Half(size))
    ensures size == 2 ==> offset > length - size
  {
    assert IsPow2(1);
  }

  /** Where the builder pushes the fold's own value further along, this level shows a collision. */
  lemma LevelCollides<D>(f: (D, D) -> D, l: Stage<D>)
    requires Valid(l) && l.size >= 3 && l.offset >= |l.tree| - l.size && UnlikeOthers(Top(l.tree, l.size), l.v)
    requires FirstEqual(Pushed(f, l), Up(f, l).v, 1) < Half(l.size)
    ensures Collides(f, SlipCollision(f, l).0, SlipCollision(f, l).1)
  {
    DiffersAbove(l.tree, l.offset, l.size, l.v, FirstEqual(Pushed(f, l), Up(f, l).v, 1));
  }

  lemma TopIsPushed<D>(f: (D, D) -> D, l: Stage<D>)
    requires Valid(l) && l.size >= 3
    ensures Top(Up(f, l).tree, Half(l.size)) == Pushed(f, l)
  {
  }

  /** Either this level shows a collision, or the fold is again unlike every node but the first, one level up. */
  lemma LevelUnlike<D>(f: (D, D) -> D, l: Stage<D>)
    requires Valid(l) && l.size >= 3 && l.offset >= |l.tree| - l.size && UnlikeOthers(Top(l.tree, l.size), l.v)
    ensures
      || Collides(f, SlipCollision(f, l).0, SlipCollision(f, l).1)
      || (SlipCollision(f, l) == SlipCollision(f, Up(f, l))
          && UnlikeOthers(Top(Up(f, l).tree, Half(l.size)), Up(f, l).v))
  {
    if FirstEqual(Pushed(f, l), Up(f, l).v, 1) < Half(l.size) {
      LevelCollides(f, l);
    } else {
      TopIsPushed(f, l);
    }
  }

  /** At the topmost pair a slipped builder hashes other inputs than the verifier. */
  lemma SlippedPair<D>(f: (D, D) -> D, l: Stage<D>)
    requires Valid(l) && l.size == 2 && l.offset > |l.tree| - 2 && UnlikeOthers(Top(l.tree, 2), l.v)
    requires Last(Built(f, l)) == SpineEnd(f, l)
    ensures Collides(f, SlipCollision(f, l).0, SlipCollision(f, l).1)
  {
    DiffersAbove(l.tree, l.offset, 2, l.v, 0);
    TopOfTwo(f, l.tree, l.offset);
  }

  /** Above the topmost pair the path is empty, so the fold ends there. */
  lemma FoldOfPair<D>(f: (D, D) -> D, tree: seq<D>, g: seq<D>, v: D)
    requires 2 <= |tree| && tree <= g && |g| == |tree| - 2 + NodeCount(2)
    ensures Fold(f, v, 0, Path(g, 0, |tree| - 2, 2)) == f(v, Top(tree, 2)[1])
  {
    FoldFirst(f, tree, g, 2, v);
    assert Path(g, 0, |tree|, 1) == [];
  }

  lemma FoldFirstUp<D>(f: (D, D) -> D, l: Stage<D>)
    requires Valid(l) && l.size >= 3 && |Built(f, l)| == |l.tree| - l.size + NodeCount(l.size)
    ensures |Built(f, l)| == |l.tree| + NodeCount(Half(l.size)) && |Up(f, l).tree| - Half(l.size) == |l.tree|
    ensures Fold(f, l.v, 0, Path(Built(f, l), 0, |l.tree| - l.size, l.size))
         == Fold(f, Up(f, l).v, 0, Path(Built(f, l), 0, |l.tree|, Half(l.size)))
  {
    HalfOfPadded(l.size);
    FoldFirst(f, l.tree, Built(f, l), l.size, l.v);
  }

  lemma {:induction false} FoldIsSpineEnd<D>(f: (D, D) -> D, l: Stage<D>)
    requires Valid(l) && |Built(f, l)| == |l.tree| - l.size + NodeCount(l.size)
    ensures Fold(f, l.v, 0, Path(Built(f, l), 0, |l.tree| - l.size, l.size)) == SpineEnd(f, l)
    decreases l.size
  {
    if l.size == 2 {
      FoldOfPair(f, l.tree, Built(f, l), l.v);
    } else {
      FoldFirstUp(f, l);
      BuiltUp(f, l);
      FoldIsSpineEnd(f, Up(f, l));
    }
  }

  /** The builder reads this level at the wrong place or is about to, and the fold is unlike its nodes but the first. */
  ghost predicate Slipped<D>(l: Stage<D>) {
    && Valid(l) && l.offset >= |l.tree| - l.size
    && UnlikeOthers(Top(l.tree, l.size), l.v)
    && (l.offset > |l.tree| - l.size || !IsPow2(l.size))
  }

  /**
   Once a level was odd the builder reads the following levels one place too far along, so that
   the first leaf is not in the left spine of the topmost node; only a collision can still make
   the fold of its path end there.
   */
  lemma {:induction false} SlippedRootCollides<D>(f: (D, D) -> D, l: Stage<D>)
    requires Slipped(l) && Last(Built(f, l)) == SpineEnd(f, l)
    ensures Collides(f, SlipCollision(f, l).0, SlipCollision(f, l).1)
    decreases l.size
  {
    SlipGrows(|l.tree|, l.offset, l.size);
    if l.size == 2 {
      SlippedPair(f, l);
    } else {
      LevelUnlike(f, l);
      if UnlikeOthers(Top(Up(f, l).tree, Half(l.size)), Up(f, l).v) {
        BuiltUp(f, l);
        SlippedRootCollides(f, Up(f, l));
      }
    }
  }

  /** n leaves of which the first is unlike the rest. */
  function OddOneOut<D>(a: D, b: D, n: nat): (leaves: seq<D>)
    requires n >= 1
    ensures |leaves| == n
  {
    [a] + seq(n - 1, i => b)
  }

  /** The collision that an accepted proof of the first of these leaves exhibits. */
  function CountCollision<D(==)>(f: (D, D) -> D, n: nat, a: D, b: D): ((D, D), (D, D))
    requires n >= 2
  {
    SlipCollision(f, Stage(OddOneOut(a, b, n), 0, n, a))
  }

  /**
   For any other number of leaves and any two different digests, the proof of a first leaf unlike
   the rest is rejected, or hashing collides on a pair of inputs that can be named.
   */
  lemma OtherCountsIncomplete<D>(f: (D, D) -> D, zero: D, n: nat, a: D, b: D)
    requires a != b && n >= 2 && !IsPow2(n)
    ensures Complete(f, zero, OddOneOut(a, b, n), 0) ==>
      Collides(f, CountCollision(f, n, a, b).0, CountCollision(f, n, a, b).1)
  {
    var leaves := OddOneOut(a, b, n);
    if Complete(f, zero, leaves, 0) {
      assert Top(leaves, n) == leaves;
      assert Tree(f, zero, leaves) == Grow(f, leaves, 0, n);
      FoldIsSpineEnd(f, Stage(leaves, 0, n, a));
      SlippedRootCollides(f, Stage(leaves, 0, n, a));
    }
  }

  /** The verifier accepts the proof of every leaf, whatever the n leaves are. */
  ghost predicate AllComplete<D(!new)>(f: (D, D) -> D, zero: D, n: nat) {
    forall leaves: seq<D>, idx: nat | |leaves| == n && idx < n :: Complete(f, zero, leaves, idx)
  }

  /**
   All proofs over every choice of n leaves are accepted if n is a power of two, for any hash; for
   any other n they are only if every two different digests yield a collision of the hash.
   */
  lemma CompletenessExact<D(!new)>(f: (D, D) -> D, zero: D, n: nat)
    requires n >= 1
    ensures IsPow2(n) ==> AllComplete(f, zero, n)
    ensures !IsPow2(n) && AllComplete(f, zero, n) ==>
      n >= 2 && forall a, b | a != b :: Collides(f, CountCollision(f, n, a, b).0, CountCollision(f, n, a, b).1)
  {
    if IsPow2(n) {
      forall leaves: seq<D>, idx: nat | |leaves| == n && idx < n ensures Complete(f, zero, leaves, idx) {
        PowerOfTwoComplete(f, zero, leaves, idx);
      }
    } else if AllComplete(f, zero, n) {
      forall a, b | a != b ensures Collides(f, CountCollision(f, n, a, b).0, CountCollision(f, n, a, b).1) {
        OtherCountsIncomplete(f, zero, n, a, b);
      }
    }
  }

  /**
   Where hashing does not collide on the one pair of inputs named, the powers of two are exactly the
   counts for which all proofs are accepted.
   */
  lemma CollisionFreeExact<D(!new)>(f: (D, D) -> D, zero: D, n: nat, a: D, b: D)
    requires a != b && n >= 1
    requires n >= 2 ==> !Collides(f, CountCollision(f, n, a, b).0, CountCollision(f, n, a, b).1)
    ensures IsPow2(n) <==> AllComplete(f, zero, n)
  {
    CompletenessExact(f, zero, n);
  }

  // ------------------------------------------------ Binding

  /** The two inputs hashed at one step. */
  function Inputs<D>(cur: D, idx: nat, sibling: D): (D, D) {
    if idx % 2 == 0 then (cur, sibling) else (sibling, cur)
  }

  /** Follows two proofs upwards to the first step at which different inputs hash alike. */
  function Collision<D(==)>(f: (D, D) -> D, c1: D, p1: seq<D>, c2: D, p2: seq<D>, idx: nat): ((D, D), (D, D))
    requires |p1| == |p2|
    decreases |p1|
  {
    if |p1| == 0 then ((c1, c1), (c2, c2))
    else
      var (x, y) := (Inputs(c1, idx, p1[0]), Inputs(c2, idx, p2[0]));
      if x != y && f(x.0, x.1) == f(y.0, y.1) then (x, y)
      else Collision(f, Hashed(f, c1, idx, p1[0]), p1[1..], Hashed(f, c2, idx, p2[0]), p2[1..], idx / 2)
  }

  /** Two different proofs of one position under one root, with paths of one length, exhibit a hash collision. */
  lemma {:induction false} Binding<D>(f: (D, D) -> D, c1: D, p1: seq<D>, c2: D, p2: seq<D>, idx: nat)
    requires |p1| == |p2| && Fold(f, c1, idx, p1) == Fold(f, c2, idx, p2)
    ensures (c1 == c2 && p1 == p2) ||
      (var (x, y) := Collision(f, c1, p1, c2, p2, idx); Collides(f, x, y))
    decreases |p1|
  {
    if |p1| > 0 {
      var (x, y) := (Inputs(c1, idx, p1[0]), Inputs(c2, idx, p2[0]));
      if !Collides(f, x, y) {
        Binding(f, Hashed(f, c1, idx, p1[0]), p1[1..], Hashed(f, c2, idx, p2[0]), p2[1..], idx / 2);
        assert p1 == [p1[0]] + p1[1..] && p2 == [p2[0]] + p2[1..];
      }
    }
  }
}
