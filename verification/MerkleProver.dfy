/** The prover and the verifier as the program runs them: loops over growing vectors. */
module MerkleProver {
  import opened Wrappers
  import opened MerkleTree
  import opened MerkleTheorems

  datatype Error = IndexOutOfRange

  datatype StorageProof<D> = StorageProof(index: nat, leaf: D, path: seq<D>, root: D, totalChunks: nat)
  datatype StorageProver<D> = StorageProver(tree: seq<D>, leaves: seq<D>, totalChunks: nat, root: D)

  /** The inner loop of the builder: hashes one level pairwise. */
  method HashLevel<D>(f: (D, D) -> D, tree: seq<D>, offset: nat, levelSize: nat) returns (nextLevel: seq<D>)
    requires |tree| > 0 && levelSize % 2 == 0
    ensures nextLevel == NextLevel(f, tree, offset, levelSize / 2)
  {
    nextLevel := [];
    var i := 0;
    while i < levelSize
      invariant i == 2 * |nextLevel| && i <= levelSize
      invariant nextLevel == NextLevel(f, tree, offset, |nextLevel|)
      decreases levelSize - i
    {
      var left := if offset + i < |tree| then tree[offset + i] else tree[|tree| - 1];
      var right := if offset + i + 1 < |tree| then tree[offset + i + 1] else left;
      nextLevel := nextLevel + [f(left, right)];
      i := i + 2;
    }
  }

  method BuildMerkleTree<D>(f: (D, D) -> D, zero: D, leaves: seq<D>) returns (tree: seq<D>)
    ensures tree == Tree(f, zero, leaves)
    ensures |leaves| > 0 ==> |tree| == NodeCount(|leaves|)
  {
    if |leaves| == 0 { return [zero]; }
    tree := leaves;
    var offset, levelSize := 0, |leaves|;
    while levelSize > 1
      invariant levelSize > 0 && |tree| > 0
      invariant Grow(f, tree, offset, levelSize) == Tree(f, zero, leaves)
      decreases levelSize
    {
      HalfOfPadded(levelSize);
      GrowStep(f, tree, offset, levelSize);
      if levelSize % 2 != 0 { levelSize := levelSize + 1; }
      var nextLevel := HashLevel(f, tree, offset, levelSize);
      offset := offset + levelSize;
      tree := tree + nextLevel;
      levelSize := levelSize / 2;
    }
  }

  /** Every index into the tree stays in bounds, for any leaf count. */
  method GetMerklePath<D>(index: nat, tree: seq<D>, numLeaves: nat) returns (path: seq<D>)
    requires index < numLeaves && |tree| == NodeCount(numLeaves)
    ensures path == Path(tree, index, 0, numLeaves)
    ensures |path| <= Height(numLeaves)
  {
    path := [];
    var idx, levelStart, levelNodes := index, 0, numLeaves;
    ghost var whole := Path(tree, index, 0, numLeaves);
    while levelNodes > 1
      invariant idx < levelNodes && levelStart + NodeCount(levelNodes) <= |tree|
      invariant path + Path(tree, idx, levelStart, levelNodes) == whole
      decreases levelNodes
    {
      PathContinues(path, tree, idx, levelStart, levelNodes);
      var siblingIdx := if idx % 2 == 0 then (if idx + 1 < levelNodes then idx + 1 else idx) else idx - 1;
      assert HasSibling(idx, levelNodes) ==> siblingIdx == SiblingOf(idx);
      if siblingIdx < levelNodes && siblingIdx != idx {
        path := path + [tree[levelStart + siblingIdx]];
      }
      var nextLevelNodes := (levelNodes + 1) / 2;
      levelStart := levelStart + levelNodes;
      idx := idx / 2;
      levelNodes := nextLevelNodes;
    }
    assert path + [] == path;
  }

  ghost predicate ValidProver<D>(f: (D, D) -> D, zero: D, p: StorageProver<D>) {
    && |p.leaves| > 0 && p.totalChunks == |p.leaves|
    && p.tree == Tree(f, zero, p.leaves)
    && p.root == Last(p.tree)
  }

  /** `hashes` are the file hashes in path order; an empty directory gets the zero leaf. */
  method NewProver<D>(f: (D, D) -> D, zero: D, hashes: seq<D>) returns (p: StorageProver<D>)
    ensures ValidProver(f, zero, p)
    ensures p.leaves == if |hashes| == 0 then [zero] else hashes
  {
    var leaves := hashes;
    if |leaves| == 0 { leaves := leaves + [zero]; }
    var tree := BuildMerkleTree(f, zero, leaves);
    p := StorageProver(tree, leaves, |leaves|, tree[|tree| - 1]);
  }

  method Prove<D>(ghost f: (D, D) -> D, ghost zero: D, p: StorageProver<D>, index: nat)
    returns (r: Result<StorageProof<D>, Error>)
    requires ValidProver(f, zero, p)
    ensures r.Err? <==> index >= |p.leaves|
    ensures r.Ok? ==>
      r.value == StorageProof(index, p.leaves[index], Path(p.tree, index, 0, |p.leaves|), p.root, |p.leaves|)
  {
    if index >= p.totalChunks { return Err(IndexOutOfRange); }
    var path := GetMerklePath(index, p.tree, p.totalChunks);
    return Ok(StorageProof(index, p.leaves[index], path, p.root, p.totalChunks));
  }

  method VerifyProof<D(==)>(f: (D, D) -> D, proof: StorageProof<D>, expectedRoot: D) returns (accepted: bool)
    ensures accepted <==>
      proof.root == expectedRoot && Fold(f, proof.leaf, proof.index, proof.path) == expectedRoot
  {
    if proof.root != expectedRoot { return false; }
    var current, idx := proof.leaf, proof.index;
    for k := 0 to |proof.path|
      invariant current == Fold(f, proof.leaf, proof.index, proof.path[..k])
      invariant idx == Shift(proof.index, k)
    {
      FoldSnoc(f, proof.leaf, proof.index, proof.path, k);
      ShiftSnoc(proof.index, k);
      var sibling := proof.path[k];
      current := if idx % 2 == 0 then f(current, sibling) else f(sibling, current);
      idx := idx / 2;
    }
    assert proof.path[..|proof.path|] == proof.path;
    return current == proof.root;
  }

  /** Building, proving and verifying in sequence: accepted whenever the leaf count is a power of two. */
  method ProveAndVerify<D(==)>(f: (D, D) -> D, zero: D, hashes: seq<D>, index: nat) returns (accepted: bool)
    requires index < |hashes|
    ensures accepted <==> Complete(f, zero, hashes, index)
    ensures IsPow2(|hashes|) ==> accepted
  {
    var p := NewProver(f, zero, hashes);
    var r := Prove(f, zero, p, index);
    accepted := VerifyProof(f, r.value, p.root);
    if IsPow2(|hashes|) { PowerOfTwoComplete(f, zero, hashes, index); }
  }
}
