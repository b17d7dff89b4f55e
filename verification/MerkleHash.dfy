/**
 Proofs at the program's own combiner: the hash of two byte strings one after the other. Leaves are
 32 bytes; the verifier takes leaves and siblings of any length, so where one ends and the next
 begins is up to the proof.
 */
module MerkleHash {
  import opened MerkleTree
  import opened MerkleTheorems
  import opened MerkleLevels

  type Byte = b: int | 0 <= b < 256
  type Bytes = seq<Byte>

  function HashOfBoth(h: Bytes -> Bytes): (Bytes, Bytes) -> Bytes {
    (l, r) => h(l + r)
  }

  ghost predicate Gives32(h: Bytes -> Bytes) {
    forall x :: |h(x)| == 32
  }

  ghost predicate AllOf32(values: seq<Bytes>) {
    forall v | v in values :: |v| == 32
  }

  /** Two different byte strings with one hash. */
  predicate HashCollides(h: Bytes -> Bytes, x: (Bytes, Bytes), y: (Bytes, Bytes)) {
    x.0 + x.1 != y.0 + y.1 && h(x.0 + x.1) == h(y.0 + y.1)
  }

  // ------------------------------------------------ Binding

  /** Equal strings cut at equal places, counted from one end or the other, have equal parts. */
  lemma SameCut(a: Bytes, b: Bytes, c: Bytes, d: Bytes)
    requires a + b == c + d && (|a| == |c| || |b| == |d|)
    ensures a == c && b == d
  {
    assert |a + b| == |c + d|;
    assert a == (a + b)[..|a|] && c == (c + d)[..|c|];
    assert b == (a + b)[|a|..] && d == (c + d)[|c|..];
  }

  /** From leaves of one length on, inputs that differ are different byte strings. */
  lemma {:induction false} CollisionDiffers(h: Bytes -> Bytes, c1: Bytes, p1: seq<Bytes>, c2: Bytes, p2: seq<Bytes>,
                                            idx: nat)
    requires Gives32(h) && |p1| == |p2| && |c1| == |c2|
    ensures var (x, y) := Collision(HashOfBoth(h), c1, p1, c2, p2, idx); x.0 + x.1 == y.0 + y.1 ==> x == y
    decreases |p1|
  {
    var f := HashOfBoth(h);
    var (x, y) := Collision(f, c1, p1, c2, p2, idx);
    if |p1| == 0 {
      if c1 + c1 == c2 + c2 { SameCut(c1, c1, c2, c2); }
    } else {
      var (u, v) := (Inputs(c1, idx, p1[0]), Inputs(c2, idx, p2[0]));
      if u != v && f(u.0, u.1) == f(v.0, v.1) {
        if u.0 + u.1 == v.0 + v.1 { SameCut(u.0, u.1, v.0, v.1); }
      } else {
        CollisionDiffers(h, Hashed(f, c1, idx, p1[0]), p1[1..], Hashed(f, c2, idx, p2[0]), p2[1..], idx / 2);
      }
    }
  }

  /**
   Two accepted proofs of one position under one root, with paths of one length and leaves of one
   length, agree in leaf and siblings, or name two different byte strings with one hash. The
   siblings may have any lengths.
   */
  lemma BindingOfHash(h: Bytes -> Bytes, c1: Bytes, p1: seq<Bytes>, c2: Bytes, p2: seq<Bytes>, idx: nat)
    requires Gives32(h) && |p1| == |p2| && |c1| == |c2|
    requires Fold(HashOfBoth(h), c1, idx, p1) == Fold(HashOfBoth(h), c2, idx, p2)
    ensures (c1 == c2 && p1 == p2) ||
      (var (x, y) := Collision(HashOfBoth(h), c1, p1, c2, p2, idx); HashCollides(h, x, y))
  {
    Binding(HashOfBoth(h), c1, p1, c2, p2, idx);
    CollisionDiffers(h, c1, p1, c2, p2, idx);
  }

  // ------------------------------------------------ Lengths of what the hash gives

  lemma {:induction false} LevelOf32(h: Bytes -> Bytes, leaves: seq<Bytes>, j: nat)
    requires Gives32(h) && AllOf32(leaves) && IsPow2(|leaves|) && j <= Height(|leaves|)
    ensures AllOf32(LevelUp(HashOfBoth(h), leaves, j))
  {
    if j > 0 {
      var level := LevelUp(HashOfBoth(h), leaves, j);
      forall v | v in level ensures |v| == 32 {
        var i :| 0 <= i < |level| && level[i] == v;
      }
    }
  }

  lemma {:induction false} FoldOf32(h: Bytes -> Bytes, cur: Bytes, idx: nat, path: seq<Bytes>)
    requires Gives32(h) && (|path| > 0 || |cur| == 32)
    ensures |Fold(HashOfBoth(h), cur, idx, path)| == 32
    decreases |path|
  {
    if |path| > 0 { FoldOf32(h, Hashed(HashOfBoth(h), cur, idx, path[0]), idx / 2, path[1..]); }
  }

  // ------------------------------------------------ What an accepted proof shows

  /** The value is the level's node at this index, counted around, or two byte strings with one hash are named. */
  ghost predicate IsNodeOfHash(h: Bytes -> Bytes, zero: Bytes, level: seq<Bytes>, idx: nat, leaf: Bytes,
                               path: seq<Bytes>)
    requires |level| > 0
  {
    var slot := idx % |level|;
    || leaf == level[slot]
    || (|path| == |Honest(HashOfBoth(h), zero, level, slot)|
        && HashCollides(h, LevelCollision(HashOfBoth(h), zero, level, slot, leaf, path).0,
                        LevelCollision(HashOfBoth(h), zero, level, slot, leaf, path).1))
  }

  /**
   Against a power-of-two tree of 32-byte leaves, an accepted proof whose path is `j` short shows the
   node `j` levels above the leaves only if its leaf has 32 bytes; and if it has, it does, or two
   different byte strings with one hash are named.
   */
  lemma NodeOfHash(h: Bytes -> Bytes, zero: Bytes, leaves: seq<Bytes>, j: nat, idx: nat, leaf: Bytes,
                   path: seq<Bytes>)
    requires Gives32(h) && AllOf32(leaves) && IsPow2(|leaves|)
    requires j <= Height(|leaves|) && |path| == Height(|leaves|) - j
    requires Accepts(HashOfBoth(h), zero, leaves, idx, leaf, path)
    ensures var level := LevelUp(HashOfBoth(h), leaves, j);
      && (leaf == level[idx % |level|] ==> |leaf| == 32)
      && (|leaf| == 32 ==> IsNodeOfHash(h, zero, level, idx, leaf, path))
  {
    var f := HashOfBoth(h);
    var level := LevelUp(f, leaves, j);
    var slot := idx % |level|;
    LevelOf32(h, leaves, j);
    assert level[slot] in level;
    if |leaf| == 32 {
      HeightOfPow2(|level|);
      FoldLowBits(f, leaf, idx, path);
      InnerNodeAccepted(f, zero, leaves, j, slot);
      BindingOfHash(h, leaf, path, level[slot], Honest(f, zero, level, slot), slot);
    }
  }

  /** With a full path an accepted leaf is the stored one exactly if it has 32 bytes, collisions aside. */
  lemma StoredOfHash(h: Bytes -> Bytes, zero: Bytes, leaves: seq<Bytes>, idx: nat, leaf: Bytes, path: seq<Bytes>)
    requires Gives32(h) && AllOf32(leaves) && IsPow2(|leaves|) && |path| == Height(|leaves|)
    requires Accepts(HashOfBoth(h), zero, leaves, idx, leaf, path)
    ensures leaf == leaves[idx % |leaves|] ==> |leaf| == 32
    ensures |leaf| == 32 ==> IsNodeOfHash(h, zero, leaves, idx, leaf, path)
  {
    NodeOfHash(h, zero, leaves, 0, idx, leaf, path);
  }

  /** With a path `d` too long, what the first `d` siblings lead to is the stored leaf, or a collision is named. */
  lemma BelowLeafOfHash(h: Bytes -> Bytes, zero: Bytes, leaves: seq<Bytes>, d: nat, idx: nat, leaf: Bytes,
                        path: seq<Bytes>)
    requires Gives32(h) && AllOf32(leaves) && IsPow2(|leaves|) && d > 0 && |path| == Height(|leaves|) + d
    requires Accepts(HashOfBoth(h), zero, leaves, idx, leaf, path)
    ensures IsNodeOfHash(h, zero, leaves, Shift(idx, d), Fold(HashOfBoth(h), leaf, idx, path[..d]), path[d..])
  {
    var cur := Fold(HashOfBoth(h), leaf, idx, path[..d]);
    FoldSplit(HashOfBoth(h), leaf, idx, path, d);
    FoldOf32(h, leaf, idx, path[..d]);
    StoredOfHash(h, zero, leaves, Shift(idx, d), cur, path[d..]);
  }

  // ------------------------------------------------ Leaves of other lengths

  /** The first string that is hashed. */
  function Front(idx: nat, leaf: Bytes, sibling: Bytes): Bytes {
    if idx % 2 == 0 then leaf + sibling else sibling + leaf
  }

  /** The same string cut so that the leaf has `m` bytes. */
  function CutLeaf(idx: nat, s: Bytes, m: nat): Bytes
    requires m <= |s|
  {
    if idx % 2 == 0 then s[..m] else s[|s| - m..]
  }

  function CutSibling(idx: nat, s: Bytes, m: nat): Bytes
    requires m <= |s|
  {
    if idx % 2 == 0 then s[m..] else s[..|s| - m]
  }

  /** Moving the cut between leaf and first sibling leaves the verifier's result as it is, without any collision. */
  lemma RecutFolds(h: Bytes -> Bytes, idx: nat, leaf: Bytes, path: seq<Bytes>, m: nat)
    requires |path| > 0 && m <= |Front(idx, leaf, path[0])|
    ensures var s := Front(idx, leaf, path[0]);
      && |CutLeaf(idx, s, m)| == m
      && Fold(HashOfBoth(h), CutLeaf(idx, s, m), idx, path[0 := CutSibling(idx, s, m)])
         == Fold(HashOfBoth(h), leaf, idx, path)
  {
    var s := Front(idx, leaf, path[0]);
    if idx % 2 == 0 {
      assert CutLeaf(idx, s, m) + CutSibling(idx, s, m) == s;
    } else {
      assert CutSibling(idx, s, m) + CutLeaf(idx, s, m) == s;
    }
    assert path[0 := CutSibling(idx, s, m)][1..] == path[1..];
  }

  /** An accepted proof with a leaf and a first sibling of 32 bytes, cut anew so that the leaf has `m` bytes. */
  lemma RecutAccepted(h: Bytes -> Bytes, zero: Bytes, leaves: seq<Bytes>, idx: nat, leaf: Bytes, path: seq<Bytes>,
                      m: nat)
    returns (leaf': Bytes, path': seq<Bytes>)
    requires Accepts(HashOfBoth(h), zero, leaves, idx, leaf, path)
    requires |leaf| == 32 && |path| > 0 && |path[0]| == 32 && m <= 64
    ensures |leaf'| == m && |path'| == |path| && Accepts(HashOfBoth(h), zero, leaves, idx, leaf', path')
    ensures Front(idx, leaf', path'[0]) == Front(idx, leaf, path[0])
  {
    var s := Front(idx, leaf, path[0]);
    RecutFolds(h, idx, leaf, path, m);
    leaf', path' := CutLeaf(idx, s, m), path[0 := CutSibling(idx, s, m)];
    if idx % 2 == 0 {
      assert leaf' + path'[0] == s;
    } else {
      assert path'[0] + leaf' == s;
    }
  }

  /** The pair named for a proof that was only cut anew is one byte string. */
  lemma RecutIsNoCollision(h: Bytes -> Bytes, zero: Bytes, leaves: seq<Bytes>, slot: nat, leaf: Bytes,
                           path: seq<Bytes>)
    requires slot < |leaves| && |path| == |Honest(HashOfBoth(h), zero, leaves, slot)| > 0
    requires leaf != leaves[slot]
    requires Front(slot, leaf, path[0]) == Front(slot, leaves[slot], Honest(HashOfBoth(h), zero, leaves, slot)[0])
    ensures var (x, y) := LevelCollision(HashOfBoth(h), zero, leaves, slot, leaf, path); !HashCollides(h, x, y)
  {
    var honest := Honest(HashOfBoth(h), zero, leaves, slot);
    assert Inputs(leaf, slot, path[0]) != Inputs(leaves[slot], slot, honest[0]);
  }

  /**
   For every tree of two or more 32-byte leaves and every index, proofs with a full path and a leaf of
   any length up to 64 bytes are accepted; those of other lengths than 32 show no stored leaf, and no
   collision is involved.
   */
  lemma OtherLengthsAccepted(h: Bytes -> Bytes, zero: Bytes, leaves: seq<Bytes>, idx: nat, m: nat)
    returns (leaf: Bytes, path: seq<Bytes>)
    requires Gives32(h) && AllOf32(leaves) && IsPow2(|leaves|) && |leaves| > 1 && idx < |leaves| && m <= 64
    ensures |leaf| == m && |path| == Height(|leaves|) && Accepts(HashOfBoth(h), zero, leaves, idx, leaf, path)
    ensures m != 32 ==> leaf !in leaves && !IsNodeOfHash(h, zero, leaves, idx, leaf, path)
  {
    var f := HashOfBoth(h);
    var honest := Honest(f, zero, leaves, idx);
    InnerNodeAccepted(f, zero, leaves, 0, idx);
    HonestFirst(f, zero, leaves, idx);
    assert leaves[idx] in leaves;
    leaf, path := RecutAccepted(h, zero, leaves, idx, leaves[idx], honest, m);
    if m != 32 {
      ModBelow(idx, |leaves|);
      RecutIsNoCollision(h, zero, leaves, idx, leaf, path);
    }
  }

  // ------------------------------------------------ The exact condition

  /**
   Every accepted proof over n 32-byte leaves with a path of length k and a leaf of m bytes shows the
   leaf stored at its index, collisions aside.
   */
  ghost predicate AlwaysStored(h: Bytes -> Bytes, zero: Bytes, n: nat, k: nat, m: nat)
    requires n > 0
  {
    forall leaves: seq<Bytes>, idx: nat, leaf: Bytes, path: seq<Bytes> |
      |leaves| == n && AllOf32(leaves) && |leaf| == m && |path| == k
      && Accepts(HashOfBoth(h), zero, leaves, idx, leaf, path) ::
      IsNodeOfHash(h, zero, leaves, idx, leaf, path)
  }

  /** One accepted proof that shows no stored leaf is enough. */
  lemma Refutes(h: Bytes -> Bytes, zero: Bytes, leaves: seq<Bytes>, idx: nat, leaf: Bytes, path: seq<Bytes>)
    requires |leaves| > 0 && AllOf32(leaves) && Accepts(HashOfBoth(h), zero, leaves, idx, leaf, path)
    requires !IsNodeOfHash(h, zero, leaves, idx, leaf, path)
    ensures !AlwaysStored(h, zero, |leaves|, |path|, |leaf|)
  {
  }

  function Filler(b: Byte): (s: Bytes)
    ensures |s| == 32 && s[0] == b
  {
    seq(32, i => b)
  }

  lemma WrongPathIsNoNode(h: Bytes -> Bytes, zero: Bytes, leaves: seq<Bytes>, idx: nat, leaf: Bytes, path: seq<Bytes>)
    requires IsPow2(|leaves|) && |path| != Height(|leaves|) && leaf != leaves[idx % |leaves|]
    ensures !IsNodeOfHash(h, zero, leaves, idx, leaf, path)
  {
    FullPath(Tree(HashOfBoth(h), zero, leaves), idx % |leaves|, 0, |leaves|);
  }

  /** A proof with the wrong path length, if need be cut anew, refutes every leaf length. */
  lemma WrongPathRefutes(h: Bytes -> Bytes, zero: Bytes, leaves: seq<Bytes>, idx: nat, leaf: Bytes, path: seq<Bytes>,
                         m: nat)
    requires IsPow2(|leaves|) && AllOf32(leaves) && |path| != Height(|leaves|)
    requires Accepts(HashOfBoth(h), zero, leaves, idx, leaf, path)
    requires |leaf| == 32 && leaf != leaves[idx % |leaves|]
    requires m != 32 ==> m <= 64 && |path| > 0 && |path[0]| == 32
    ensures !AlwaysStored(h, zero, |leaves|, |path|, m)
  {
    var leaf', path' := leaf, path;
    if m != 32 { leaf', path' := RecutAccepted(h, zero, leaves, idx, leaf, path, m); }
    assert leaves[idx % |leaves|] in leaves;
    WrongPathIsNoNode(h, zero, leaves, idx, leaf', path');
    Refutes(h, zero, leaves, idx, leaf', path');
  }

  lemma OddOf32(a: Bytes, b: Bytes, n: nat)
    requires |a| == |b| == 32 && n >= 1
    ensures AllOf32(OddOneOut(a, b, n))
  {
    forall v | v in OddOneOut(a, b, n) ensures |v| == 32 {
      var i :| 0 <= i < n && OddOneOut(a, b, n)[i] == v;
    }
  }

  lemma ShortFails(h: Bytes -> Bytes, zero: Bytes, n: nat, k: nat, m: nat)
    requires Gives32(h) && IsPow2(n) && k < Height(n) && (m == 32 || (k > 0 && m <= 64))
    ensures !AlwaysStored(h, zero, n, k, m)
  {
    var leaves := OddOneOut(Filler(0), Filler(1), n);
    assert Filler(0)[0] != Filler(1)[0];
    OddOf32(Filler(0), Filler(1), n);
    LevelOf32(h, leaves, Height(n) - k);
    var idx, leaf, path := ShortPathFails(HashOfBoth(h), zero, leaves, Height(n) - k, Filler(0), Filler(1));
    ModBelow(idx, n);
    WrongPathRefutes(h, zero, leaves, idx, leaf, path, m);
  }

  lemma BuriedOf32(h: Bytes -> Bytes, n: nat, a: Bytes, b: Bytes, more: nat)
    requires Gives32(h)
    ensures AllOf32(Alike(n, Buried(HashOfBoth(h), a, b, more)))
  {
    FoldOf32(h, HashOfBoth(h)(a, b), 0, Alike(more, b));
  }

  lemma LongFails(h: Bytes -> Bytes, zero: Bytes, n: nat, k: nat, m: nat)
    requires Gives32(h) && IsPow2(n) && k > Height(n) && m <= 64
    ensures !AlwaysStored(h, zero, n, k, m)
  {
    var a, b, more := Filler(0), Filler(1), k - Height(n) - 1;
    assert a[0] != b[0];
    var leaves := Alike(n, Buried(HashOfBoth(h), a, b, more));
    BuriedOf32(h, n, a, b, more);
    var idx, leaf, path := LongPathFails(HashOfBoth(h), zero, n, k, a, b);
    WrongPathRefutes(h, zero, leaves, idx, leaf, path, m);
  }

  lemma OtherLengthFails(h: Bytes -> Bytes, zero: Bytes, n: nat, m: nat)
    requires Gives32(h) && IsPow2(n) && n > 1 && m <= 64 && m != 32
    ensures !AlwaysStored(h, zero, n, Height(n), m)
  {
    var leaves := Alike(n, Filler(0));
    var leaf, path := OtherLengthsAccepted(h, zero, leaves, 0, m);
    Refutes(h, zero, leaves, 0, leaf, path);
  }

  /**
   For two or more leaves and all lengths for which a proof is known to be accepted: accepted proofs
   always show stored leaves, collisions aside, if and only if their paths are as long as the tree is
   high and their leaves have 32 bytes. A caller can check both; it holds whatever the hash.
   */
  lemma StoredExactly(h: Bytes -> Bytes, zero: Bytes, n: nat, k: nat, m: nat)
    requires Gives32(h) && IsPow2(n) && n > 1 && (m == 32 || (k > 0 && m <= 64))
    ensures AlwaysStored(h, zero, n, k, m) <==> k == Height(n) && m == 32
  {
    if k < Height(n) {
      ShortFails(h, zero, n, k, m);
    } else if k > Height(n) {
      LongFails(h, zero, n, k, m);
    } else if m != 32 {
      OtherLengthFails(h, zero, n, m);
    } else {
      forall leaves: seq<Bytes>, idx: nat, leaf: Bytes, path: seq<Bytes> |
        |leaves| == n && AllOf32(leaves) && |leaf| == m && |path| == k
        && Accepts(HashOfBoth(h), zero, leaves, idx, leaf, path)
        ensures IsNodeOfHash(h, zero, leaves, idx, leaf, path)
      {
        StoredOfHash(h, zero, leaves, idx, leaf, path);
      }
    }
  }
}
