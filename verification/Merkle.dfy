/** Merkle roots, the coinbase branch, and folding the branch back. Hashing two nodes is a parameter. */
module Merkle {
  import opened Numbers

  /** Nodes hashed two by two; an odd one out is hashed with itself. */
  function NextLevel<H>(pair: (H, H) -> H, level: seq<H>): (next: seq<H>)
    ensures |next| == (|level| + 1) / 2
    decreases |level|
  {
    if level == [] then []
    else if |level| == 1 then [pair(level[0], level[0])]
    else [pair(level[0], level[1])] + NextLevel(pair, level[2..])
  }

  function Root<H>(pair: (H, H) -> H, level: seq<H>): H
    requires level != []
    decreases |level|
  {
    if |level| == 1 then level[0] else Root(pair, NextLevel(pair, level))
  }

  /** The sibling of the first node at every level. */
  function Branch<H>(pair: (H, H) -> H, level: seq<H>): seq<H>
    decreases |level|
  {
    if |level| <= 1 then [] else [level[1]] + Branch(pair, NextLevel(pair, level))
  }

  function Fold<H>(pair: (H, H) -> H, node: H, branch: seq<H>): H
    decreases |branch|
  {
    if branch == [] then node else Fold(pair, pair(node, branch[0]), branch[1..])
  }

  // ---------- the tree, node by node ----------

  function Width(n: nat, height: nat): nat
  {
    if height == 0 then n else (Width(n, height - 1) + 1) / 2
  }

  /** The node `i` places from the left at a height; a missing right child is its left sibling. */
  function Node<H>(pair: (H, H) -> H, leaves: seq<H>, height: nat, i: nat): H
    requires i < Width(|leaves|, height)
    decreases height
  {
    if height == 0 then leaves[i]
    else
      var below := Width(|leaves|, height - 1);
      pair(Node(pair, leaves, height - 1, 2 * i),
           Node(pair, leaves, height - 1, if 2 * i + 1 < below then 2 * i + 1 else 2 * i))
  }

  /** Number of halvings that take a width to one. */
  function Depth(width: nat): nat
  {
    if width <= 1 then 0 else 1 + Depth((width + 1) / 2)
  }

  /** The depth is the least one whose power of two reaches the width. */
  lemma {:induction false} DepthIsLogarithm(width: nat)
    requires width > 0
    ensures width <= Pow2(Depth(width))
    ensures width > 1 ==> Pow2(Depth(width) - 1) < width
  {
    if width > 1 {
      DepthIsLogarithm((width + 1) / 2);
      if (width + 1) / 2 > 1 {
        assert Pow2(Depth(width) - 1) == 2 * Pow2(Depth(width) - 2);
      }
    }
  }

  /** The whole level at a height. */
  function Level<H>(pair: (H, H) -> H, leaves: seq<H>, height: nat): (level: seq<H>)
    ensures |level| == Width(|leaves|, height)
  {
    if height == 0 then leaves else NextLevel(pair, Level(pair, leaves, height - 1))
  }

  lemma {:induction false} NextAt<H>(pair: (H, H) -> H, level: seq<H>, i: nat)
    requires 2 * i < |level|
    ensures NextLevel(pair, level)[i] == pair(level[2 * i], level[if 2 * i + 1 < |level| then 2 * i + 1 else 2 * i])
    decreases i
  {
    if i > 0 {
      NextAt(pair, level[2..], i - 1);
    }
  }

  lemma {:induction false} LevelNode<H>(pair: (H, H) -> H, leaves: seq<H>, height: nat, i: nat)
    requires i < Width(|leaves|, height)
    ensures Level(pair, leaves, height)[i] == Node(pair, leaves, height, i)
    decreases height
  {
    if height > 0 {
      var below := Level(pair, leaves, height - 1);
      NextAt(pair, below, i);
      LevelNode(pair, leaves, height - 1, 2 * i);
      LevelNode(pair, leaves, height - 1, if 2 * i + 1 < |below| then 2 * i + 1 else 2 * i);
    }
  }

  lemma {:induction false} DepthAbove(n: nat, height: nat)
    requires n > 0 && height <= Depth(n)
    ensures Width(n, height) > 0 && Depth(Width(n, height)) == Depth(n) - height
  {
    if height > 0 {
      DepthAbove(n, height - 1);
    }
  }

  lemma {:induction false} RootOfLevel<H>(pair: (H, H) -> H, leaves: seq<H>, height: nat)
    requires leaves != [] && height <= Depth(|leaves|)
    ensures Level(pair, leaves, height) != [] && Root(pair, Level(pair, leaves, height)) == Root(pair, leaves)
  {
    DepthAbove(|leaves|, height);
    if height > 0 {
      RootOfLevel(pair, leaves, height - 1);
      DepthAbove(|leaves|, height - 1);
    }
  }

  /** Level by level or node by node, the root is the same. */
  lemma RootIsTopNode<H>(pair: (H, H) -> H, leaves: seq<H>)
    requires leaves != []
    ensures Width(|leaves|, Depth(|leaves|)) == 1
    ensures Root(pair, leaves) == Node(pair, leaves, Depth(|leaves|), 0)
  {
    var d := Depth(|leaves|);
    DepthAbove(|leaves|, d);
    RootOfLevel(pair, leaves, d);
    LevelNode(pair, leaves, d, 0);
  }

  // ---------- the branch ----------

  /** The first node reaches nothing of the next level but its first node. */
  lemma NextAfterFirst<H>(pair: (H, H) -> H, x: H, others: seq<H>)
    requires others != []
    ensures NextLevel(pair, [x] + others) == [pair(x, others[0])] + NextLevel(pair, others[1..])
  {
    assert ([x] + others)[2..] == others[1..];
  }

  lemma FoldFirst<H>(pair: (H, H) -> H, node: H, first: H, rest: seq<H>)
    ensures Fold(pair, node, [first] + rest) == Fold(pair, pair(node, first), rest) && Fold(pair, node, []) == node
  {
    assert ([first] + rest)[1..] == rest;
  }

  /** Folding any coinbase through the branch gives the root of the whole tree, whatever stood in its place. */
  lemma {:induction false} FoldIsRoot<H>(pair: (H, H) -> H, coinbase: H, placeholder: H, others: seq<H>)
    ensures Fold(pair, coinbase, Branch(pair, [placeholder] + others)) == Root(pair, [coinbase] + others)
    decreases |others|
  {
    if others != [] {
      var later := NextLevel(pair, others[1..]);
      NextAfterFirst(pair, coinbase, others);
      NextAfterFirst(pair, placeholder, others);
      var branch := Branch(pair, [placeholder] + others);
      assert branch[1..] == Branch(pair, [pair(placeholder, others[0])] + later);
      FoldIsRoot(pair, pair(coinbase, others[0]), pair(placeholder, others[0]), later);
    }
  }

  lemma {:induction false} BranchLength<H>(pair: (H, H) -> H, level: seq<H>)
    ensures |Branch(pair, level)| == Depth(|level|)
    decreases |level|
  {
    if |level| > 1 {
      BranchLength(pair, NextLevel(pair, level));
    }
  }

  lemma BranchServesAll<H(!new)>(pair: (H, H) -> H, placeholder: H, others: seq<H>)
    ensures |Branch(pair, [placeholder] + others)| == Depth(|others| + 1)
    ensures forall coinbase ::
              Fold(pair, coinbase, Branch(pair, [placeholder] + others)) == Root(pair, [coinbase] + others)
  {
    BranchLength(pair, [placeholder] + others);
    forall coinbase
      ensures Fold(pair, coinbase, Branch(pair, [placeholder] + others)) == Root(pair, [coinbase] + others)
    {
      FoldIsRoot(pair, coinbase, placeholder, others);
    }
  }

  // ---------- the loops ----------

  /** `collapse_level` after the padding: one level up. */
  method Halve<H>(pair: (H, H) -> H, level: seq<H>) returns (next: seq<H>)
    requires |level| > 1
    ensures next == NextLevel(pair, level)
  {
    var padded := level;
    if |level| % 2 != 0 {
      padded := level + [level[|level| - 1]];
    }
    next := [];
    for k := 0 to |padded| / 2
      invariant |next| == k && next == NextLevel(pair, level)[..k]
    {
      NextAt(pair, level, k);
      next := next + [pair(padded[2 * k], padded[2 * k + 1])];
    }
  }

  method MerkleRoot<H>(pair: (H, H) -> H, zero: H, leaves: seq<H>) returns (root: H)
    ensures root == if leaves == [] then zero else Root(pair, leaves)
  {
    if leaves == [] {
      return zero;
    }
    var level := leaves;
    while |level| > 1
      invariant level != [] && Root(pair, level) == Root(pair, leaves)
      decreases |level|
    {
      level := Halve(pair, level);
    }
    root := level[0];
  }

  lemma BranchStep<H>(pair: (H, H) -> H, level: seq<H>)
    requires |level| > 1
    ensures Branch(pair, level) == [level[1]] + Branch(pair, NextLevel(pair, level))
  {
  }

  lemma MovedOver<H>(done: seq<H>, x: H, left: seq<H>)
    ensures done + ([x] + left) == (done + [x]) + left
  {
  }

  method CollectBranch<H>(pair: (H, H) -> H, first: seq<H>) returns (branch: seq<H>)
    ensures branch == Branch(pair, first)
  {
    branch := [];
    var level := first;
    ghost var left := Branch(pair, first);
    while |level| > 1
      invariant left == Branch(pair, level) && branch + left == Branch(pair, first)
      decreases |level|
    {
      BranchStep(pair, level);
      var next := Halve(pair, level);
      MovedOver(branch, level[1], Branch(pair, next));
      branch := branch + [level[1]];
      level := next;
      left := Branch(pair, next);
    }
    assert branch + [] == branch;
  }

  method MerkleBranch<H(!new)>(pair: (H, H) -> H, zero: H, others: seq<H>) returns (branch: seq<H>)
    ensures |branch| == Depth(|others| + 1)
    ensures forall coinbase :: Fold(pair, coinbase, branch) == Root(pair, [coinbase] + others)
  {
    branch := CollectBranch(pair, [zero] + others);
    BranchServesAll(pair, zero, others);
  }

  method RootFromBranch<H>(pair: (H, H) -> H, coinbase: H, branch: seq<H>) returns (root: H)
    ensures root == Fold(pair, coinbase, branch)
  {
    root := coinbase;
    assert branch[0..] == branch;
    for i := 0 to |branch|
      invariant Fold(pair, root, branch[i..]) == Fold(pair, coinbase, branch)
    {
      assert branch[i..][1..] == branch[i + 1..];
      root := pair(root, branch[i]);
    }
  }

  /** The depth test on a template from the node. */
  method ExpectedDepth(transactions: nat) returns (depth: nat)
    ensures depth == Depth(transactions + 1)
  {
    var width := transactions + 1;
    depth := 0;
    while width > 1
      invariant width > 0 && depth + Depth(width) == Depth(transactions + 1)
    {
      width := (width + 1) / 2;
      depth := depth + 1;
    }
  }
}
