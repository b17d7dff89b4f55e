/** Which nodes a path carries, for every number of leaves. */
module MerklePaths {
  import opened MerkleTree

  /** `q` is the other child of the parent of node `i` on a level of so many nodes. */
  predicate OtherChild(q: nat, i: nat, nodes: nat) {
    q < nodes && q != i && q / 2 == i / 2
  }

  lemma OtherChildIsSibling(q: nat, i: nat, nodes: nat)
    requires i < nodes
    ensures OtherChild(q, i, nodes) <==> HasSibling(i, nodes) && q == SiblingOf(i)
    ensures HasSibling(i, nodes) ==> OtherChild(SiblingOf(i), i, nodes)
  {
  }

  /** How many nodes the level has that lies j above the leaves. */
  function LevelNodes(nodes: nat, j: nat): nat {
    if j == 0 then nodes else LevelNodes(Half(nodes), j - 1)
  }

  /** Where that level starts in the tree: behind all the lower ones. */
  function LevelStart(nodes: nat, j: nat): nat {
    if j == 0 then 0 else nodes + LevelStart(Half(nodes), j - 1)
  }

  /** The levels fill the tree, the topmost with one node. */
  lemma {:induction false} LevelsFill(nodes: nat)
    requires nodes > 0
    ensures LevelNodes(nodes, Height(nodes)) == 1
    ensures LevelStart(nodes, Height(nodes)) + 1 == NodeCount(nodes)
    decreases nodes
  {
    if nodes > 1 { LevelsFill(Half(nodes)); }
  }

  /** How many of the lowest j levels have another child beside the way up from `idx`. */
  ghost function Carried(idx: nat, nodes: nat, j: nat): nat {
    if j == 0 then 0
    else (if exists q: nat :: OtherChild(q, idx, nodes) then 1 else 0) + Carried(idx / 2, Half(nodes), j - 1)
  }

  /** The lowest level of a path: the sibling, if there is one, comes first. */
  lemma SiblingFirst<D>(tree: seq<D>, idx: nat, start: nat, nodes: nat)
    requires HasSibling(idx, nodes) && idx < nodes && nodes > 1 && start + NodeCount(nodes) <= |tree|
    ensures start + SiblingOf(idx) < |tree|
    ensures Path(tree, idx, start, nodes) ==
      [tree[start + SiblingOf(idx)]] + Path(tree, idx / 2, start + nodes, Half(nodes))
  {
    PathUp(tree, idx, start, nodes);
  }

  lemma PathSkips<D>(tree: seq<D>, idx: nat, start: nat, nodes: nat)
    requires !exists q: nat :: OtherChild(q, idx, nodes)
    requires idx < nodes && nodes > 1 && start + NodeCount(nodes) <= |tree|
    ensures Path(tree, idx, start, nodes) == Path(tree, idx / 2, start + nodes, Half(nodes))
  {
    PathUp(tree, idx, start, nodes);
    OtherChildIsSibling(SiblingOf(idx), idx, nodes);
    assert [] + Path(tree, idx / 2, start + nodes, Half(nodes)) == Path(tree, idx / 2, start + nodes, Half(nodes));
  }

  /** What the lowest level adds is in front of the path from the level above. */
  lemma PathBehind<D>(tree: seq<D>, idx: nat, start: nat, nodes: nat)
    requires idx < nodes && nodes > 1 && start + NodeCount(nodes) <= |tree|
    ensures idx / 2 < Half(nodes) && start + nodes + NodeCount(Half(nodes)) <= |tree|
    ensures var path := Path(tree, idx, start, nodes);
      Carried(idx, nodes, 1) <= |path|
      && path[Carried(idx, nodes, 1)..] == Path(tree, idx / 2, start + nodes, Half(nodes))
  {
    PathUp(tree, idx, start, nodes);
    assert Carried(idx / 2, Half(nodes), 0) == 0;
    if exists q: nat :: OtherChild(q, idx, nodes) {
      var q: nat :| OtherChild(q, idx, nodes);
      OtherChildIsSibling(q, idx, nodes);
      SiblingFirst(tree, idx, start, nodes);
    } else {
      PathSkips(tree, idx, start, nodes);
    }
  }

  /** Counted from the level above, the same level is one lower. */
  lemma LevelAbove(idx: nat, nodes: nat, j: nat, up: nat, above: nat)
    requires 0 < j < Height(nodes) && up == idx / 2 && above == Half(nodes)
    ensures nodes > 1 && j - 1 < Height(above)
    ensures Shift(idx, j) == Shift(up, j - 1) && LevelNodes(nodes, j) == LevelNodes(above, j - 1)
    ensures LevelStart(nodes, j) == nodes + LevelStart(above, j - 1)
    ensures Carried(idx, nodes, j) == Carried(idx, nodes, 1) + Carried(up, above, j - 1)
  {
    CarriedBehind(idx, nodes, j);
  }

  lemma AtBehind<D>(path: seq<D>, rest: seq<D>, c: nat, d: nat)
    requires c <= |path| && path[c..] == rest && d < |rest|
    ensures c + d < |path| && path[c + d] == rest[d]
  {
  }

  lemma CarriedBehind(idx: nat, nodes: nat, j: nat)
    requires j > 0
    ensures Carried(idx, nodes, j) == Carried(idx, nodes, 1) + Carried(idx / 2, Half(nodes), j - 1)
  {
    assert Carried(idx / 2, Half(nodes), 0) == 0;
  }

  /** The path has at `c` what the tree has at `p`. */
  ghost predicate CarriesAt<D>(path: seq<D>, c: nat, tree: seq<D>, p: nat) {
    c < |path| && p < |tree| && path[c] == tree[p]
  }

  lemma CarriesFirst<D>(tree: seq<D>, idx: nat, start: nat, nodes: nat, q: nat)
    requires OtherChild(q, idx, nodes) && idx < nodes && nodes > 1 && start + NodeCount(nodes) <= |tree|
    ensures CarriesAt(Path(tree, idx, start, nodes), 0, tree, start + q)
  {
    OtherChildIsSibling(q, idx, nodes);
    SiblingFirst(tree, idx, start, nodes);
  }

  lemma CarriesBehind<D>(tree: seq<D>, idx: nat, start: nat, nodes: nat, d: nat, p: nat)
    requires idx < nodes && nodes > 1 && start + NodeCount(nodes) <= |tree|
    requires idx / 2 < Half(nodes) && start + nodes + NodeCount(Half(nodes)) <= |tree|
    requires CarriesAt(Path(tree, idx / 2, start + nodes, Half(nodes)), d, tree, p)
    ensures CarriesAt(Path(tree, idx, start, nodes), Carried(idx, nodes, 1) + d, tree, p)
  {
    PathBehind(tree, idx, start, nodes);
    AtBehind(Path(tree, idx, start, nodes), Path(tree, idx / 2, start + nodes, Half(nodes)), Carried(idx, nodes, 1), d);
  }

  lemma CarriesBelow<D>(tree: seq<D>, idx: nat, start: nat, nodes: nat, j: nat, q: nat)
    requires idx < nodes && nodes > 1 && 0 < j < Height(nodes) && start + NodeCount(nodes) <= |tree|
    requires idx / 2 < Half(nodes) && start + nodes + NodeCount(Half(nodes)) <= |tree|
    requires CarriesAt(Path(tree, idx / 2, start + nodes, Half(nodes)), Carried(idx / 2, Half(nodes), j - 1),
                       tree, start + nodes + LevelStart(Half(nodes), j - 1) + q)
    ensures CarriesAt(Path(tree, idx, start, nodes), Carried(idx, nodes, j), tree, start + LevelStart(nodes, j) + q)
  {
    LevelAbove(idx, nodes, j, idx / 2, Half(nodes));
    CarriesBehind(tree, idx, start, nodes, Carried(idx / 2, Half(nodes), j - 1),
                  start + nodes + LevelStart(Half(nodes), j - 1) + q);
  }

  lemma CarriesLowest<D>(tree: seq<D>, idx: nat, start: nat, nodes: nat, q: nat)
    requires idx < nodes && start + NodeCount(nodes) <= |tree|
    requires 0 < Height(nodes) && OtherChild(q, Shift(idx, 0), LevelNodes(nodes, 0))
    ensures CarriesAt(Path(tree, idx, start, nodes), Carried(idx, nodes, 0), tree, start + LevelStart(nodes, 0) + q)
  {
    CarriesFirst(tree, idx, start, nodes, q);
  }

  lemma OneUp<D>(tree: seq<D>, idx: nat, start: nat, nodes: nat, j: nat, q: nat)
    requires idx < nodes && start + NodeCount(nodes) <= |tree|
    requires 0 < j < Height(nodes) && OtherChild(q, Shift(idx, j), LevelNodes(nodes, j))
    ensures nodes > 1 && idx / 2 < Half(nodes) && start + nodes + NodeCount(Half(nodes)) <= |tree|
    ensures j - 1 < Height(Half(nodes)) && OtherChild(q, Shift(idx / 2, j - 1), LevelNodes(Half(nodes), j - 1))
  {
    LevelAbove(idx, nodes, j, idx / 2, Half(nodes));
    PathBehind(tree, idx, start, nodes);
  }

  /**
   Level by level from the leaves up, the path carries the other child of the parent on the way to
   the root, from that level of the tree; a level where the way up has no other child adds nothing.
   */
  lemma {:induction false} PathCarries<D>(tree: seq<D>, idx: nat, start: nat, nodes: nat, j: nat, q: nat)
    requires idx < nodes && start + NodeCount(nodes) <= |tree|
    requires j < Height(nodes) && OtherChild(q, Shift(idx, j), LevelNodes(nodes, j))
    ensures CarriesAt(Path(tree, idx, start, nodes), Carried(idx, nodes, j), tree, start + LevelStart(nodes, j) + q)
    decreases j
  {
    if j == 0 {
      CarriesLowest(tree, idx, start, nodes, q);
    } else {
      OneUp(tree, idx, start, nodes, j, q);
      PathCarries(tree, idx / 2, start + nodes, Half(nodes), j - 1, q);
      CarriesBelow(tree, idx, start, nodes, j, q);
    }
  }

  /** And it carries nothing else. */
  lemma {:induction false} PathCarriesOnly<D>(tree: seq<D>, idx: nat, start: nat, nodes: nat)
    requires idx < nodes && start + NodeCount(nodes) <= |tree|
    ensures |Path(tree, idx, start, nodes)| == Carried(idx, nodes, Height(nodes))
    decreases nodes
  {
    if nodes > 1 {
      PathBehind(tree, idx, start, nodes);
      CarriedBehind(idx, nodes, Height(nodes));
      PathCarriesOnly(tree, idx / 2, start + nodes, Half(nodes));
    }
  }
}
