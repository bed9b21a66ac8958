/** Merkle hashes of a log and of parts of it. The reference is the recursive definition of section 2.1
    of RFC 6962, with the flagged child encoding the Log Tree uses (log.rs). */
module Merkle {
  import opened Bits
  import opened LeftBalanced

  datatype NodeData<+H> = NodeData(interior: bool, value: H)

  type TreeHash<!H> = (NodeData<H>, NodeData<H>) -> H

  function Combine<H>(h: TreeHash<H>, l: NodeData<H>, r: NodeData<H>): NodeData<H> {
    NodeData(true, h(l, r))
  }

  /** Two different pairs of children that hash alike. */
  ghost predicate Collide<H>(h: TreeHash<H>, a: NodeData<H>, b: NodeData<H>, c: NodeData<H>, d: NodeData<H>) {
    h(a, b) == h(c, d) && (a != c || b != d)
  }

  /** No two different pairs of children hash alike. No hash to strings of a fixed length is like that, so
      the theorems ask for less: that the given hashes and the log show no such pair (`ClashBelow`). */
  ghost predicate CollisionFree<H(!new)>(h: TreeHash<H>) {
    forall a, b, c, d :: h(a, b) == h(c, d) ==> a == c && b == d
  }

  /** The largest power of two strictly below n. */
  function Split(n: nat): (k: nat)
    requires n >= 2
    ensures 0 < k < n
  {
    Log2Bounds(n - 1);
    Pow2(Log2(n - 1))
  }

  /** The Merkle tree hash of section 2.1 of RFC 6962. */
  function TreeOf<H>(h: TreeHash<H>, log: seq<H>): NodeData<H>
    requires log != []
    decreases |log|
  {
    if |log| == 1 then NodeData(false, log[0])
    else var k := Split(|log|); Combine(h, TreeOf(h, log[..k]), TreeOf(h, log[k..]))
  }

  function LogRoot<H>(h: TreeHash<H>, log: seq<H>): H
    requires log != []
  {
    TreeOf(h, log).value
  }

  // Blocks -------------------------------------------------------------------------

  /** The leaves of node (k, j) that a log of n leaves has end here. */
  function BlockEnd(n: nat, k: nat, j: nat): nat {
    if Start(k, j + 1) < n then Start(k, j + 1) else n
  }

  /** The hash of the leaves below node (k, j); an only child stands for its parent. */
  function Block<H>(h: TreeHash<H>, log: seq<H>, k: nat, j: nat): NodeData<H>
    requires Start(k, j) < |log|
    decreases k
  {
    if k == 0 then NodeData(false, log[j])
    else if Start(k - 1, 2 * j + 1) < |log| then
      Combine(h, Block(h, log, k - 1, 2 * j), Block(h, log, k - 1, 2 * j + 1))
    else Block(h, log, k - 1, 2 * j)
  }

  lemma SplitUnique(n: nat, k: nat)
    requires Pow2(k) < n <= 2 * Pow2(k)
    ensures n >= 2 && Split(n) == Pow2(k)
  {
    assert Pow2(k + 1) == 2 * Pow2(k);
    Log2Unique(n - 1, k);
  }

  /** The tree hash by its laws: a leaf alone is the root; otherwise the left part holds the largest power
      of two of leaves that leaves some for the right, and children are flagged when not leaves. */
  lemma RootLaws<H>(h: TreeHash<H>, log: seq<H>, e: nat)
    requires log != []
    ensures |log| == 1 ==> LogRoot(h, log) == log[0]
    ensures Pow2(e) < |log| <= 2 * Pow2(e) ==>
      LogRoot(h, log) == h(NodeData(Pow2(e) > 1, LogRoot(h, log[..Pow2(e)])),
                           NodeData(|log| - Pow2(e) > 1, LogRoot(h, log[Pow2(e)..])))
  {
    if Pow2(e) < |log| <= 2 * Pow2(e) {
      SplitUnique(|log|, e);
    }
  }

  lemma BlockBounds(n: nat, k: nat, j: nat)
    requires Start(k, j) < n
    ensures Start(k, j) < BlockEnd(n, k, j) <= n
    ensures k > 0 ==> var a, m := Start(k, j), Start(k - 1, 2 * j + 1);
      && Start(k - 1, 2 * j) == a && m == a + Pow2(k - 1)
      && if m < n then
           && BlockEnd(n, k - 1, 2 * j) == m && BlockEnd(n, k - 1, 2 * j + 1) == BlockEnd(n, k, j)
           && Pow2(k - 1) < BlockEnd(n, k, j) - a <= 2 * Pow2(k - 1)
         else BlockEnd(n, k - 1, 2 * j) == BlockEnd(n, k, j)
  {
    StartNext(k, j);
    if k > 0 {
      StartNext(k - 1, 2 * j);
      StartNext(k - 1, 2 * j + 1);
    }
  }

  /** A block is the Merkle tree of the leaves below its node. */
  lemma {:induction false} BlockIsTree<H>(h: TreeHash<H>, log: seq<H>, k: nat, j: nat)
    requires Start(k, j) < |log|
    ensures Start(k, j) < BlockEnd(|log|, k, j) <= |log|
    ensures Block(h, log, k, j) == TreeOf(h, log[Start(k, j)..BlockEnd(|log|, k, j)])
    decreases k
  {
    hide Start, BlockEnd, Pow2, TreeOf;
    BlockBounds(|log|, k, j);
    var a, b := Start(k, j), BlockEnd(|log|, k, j);
    if k == 0 {
      LeafIsTree(h, log, j);
    } else {
      var m := Start(k - 1, 2 * j + 1);
      BlockIsTree(h, log, k - 1, 2 * j);
      if m < |log| {
        BlockIsTree(h, log, k - 1, 2 * j + 1);
        TreeSplits(h, log, a, b, k - 1);
      }
    }
  }

  lemma LeafIsTree<H>(h: TreeHash<H>, log: seq<H>, j: nat)
    requires Start(0, j) < |log|
    ensures Start(0, j) == j && BlockEnd(|log|, 0, j) == j + 1
    ensures TreeOf(h, log[j..j + 1]) == NodeData(false, log[j])
  {
  }

  lemma TreeUnfolds<H>(h: TreeHash<H>, s: seq<H>)
    requires |s| >= 2
    ensures TreeOf(h, s) == Combine(h, TreeOf(h, s[..Split(|s|)]), TreeOf(h, s[Split(|s|)..]))
  {
  }

  lemma TreeSplits<H>(h: TreeHash<H>, log: seq<H>, a: nat, b: nat, k: nat)
    requires a <= b <= |log| && Pow2(k) < b - a <= 2 * Pow2(k)
    ensures var m := a + Pow2(k); TreeOf(h, log[a..b]) == Combine(h, TreeOf(h, log[a..m]), TreeOf(h, log[m..b]))
  {
    hide Pow2, Split, TreeOf;
    SplitUnique(b - a, k);
    var s := log[a..b];
    TreeUnfolds(h, s);
    assert s[..Pow2(k)] == log[a..a + Pow2(k)];
    assert s[Pow2(k)..] == log[a + Pow2(k)..b];
  }

  /** The level of the root of a log of n leaves. */
  function Height(n: nat): nat
    requires n > 0
  {
    if n == 1 then 0 else Log2(n - 1) + 1
  }

  lemma HeightSpans(n: nat)
    requires n > 0
    ensures Start(Height(n), 0) == 0 && n <= Start(Height(n), 1)
    ensures n > 1 ==> Start(Height(n) - 1, 1) < n
  {
    hide *;
    StartZero(Height(n));
    StartNext(Height(n), 0);
    HeightPow2(n);
    if n > 1 {
      StartZero(Height(n) - 1);
      StartNext(Height(n) - 1, 0);
    }
  }

  lemma HeightPow2(n: nat)
    requires n > 0
    ensures n <= Pow2(Height(n))
    ensures n > 1 ==> Height(n) > 0 && Pow2(Height(n) - 1) < n
  {
    if n > 1 {
      Log2Bounds(n - 1);
    }
  }

  lemma {:induction false} StartZero(k: nat)
    ensures Start(k, 0) == 0
  {
    if k > 0 {
      StartZero(k - 1);
    }
  }

  /** The whole log is the block below the root, and so is every prefix of it that fits one. */
  lemma TopBlock<H>(h: TreeHash<H>, log: seq<H>)
    requires log != []
    ensures Start(Height(|log|), 0) < |log|
    ensures Block(h, log, Height(|log|), 0) == TreeOf(h, log)
  {
    HeightSpans(|log|);
    BlockIsTree(h, log, Height(|log|), 0);
    assert log[0..|log|] == log;
  }

  /** Blocks that a prefix of the log already fills do not change when the log grows. */
  lemma FullBlockIsStable<H>(h: TreeHash<H>, log: seq<H>, m: nat, k: nat, j: nat)
    requires m <= |log| && Start(k, j + 1) <= m
    ensures Start(k, j) < m && Block(h, log[..m], k, j) == Block(h, log, k, j)
  {
    StartNext(k, j);
    BlockIsTree(h, log, k, j);
    BlockIsTree(h, log[..m], k, j);
    assert log[..m][Start(k, j)..Start(k, j + 1)] == log[Start(k, j)..Start(k, j + 1)];
  }

  // Node ids of a log of n leaves --------------------------------------------------------

  /** The id that stands for block (k, j): the topmost node of the block that has two children. */
  function Canon(n: nat, k: nat, j: nat): nat
    requires Start(k, j) < n
    decreases k
  {
    if k == 0 || Start(k - 1, 2 * j + 1) < n then Id(k, j) else Canon(n, k - 1, 2 * j)
  }

  lemma {:induction false} CanonBelow(n: nat, k: nat, j: nat)
    requires Start(k, j) < n
    ensures Level(Canon(n, k, j)) <= k
    decreases k
  {
    LevelOfId(k, j);
    if k > 0 && Start(k - 1, 2 * j + 1) >= n {
      CanonBelow(n, k - 1, 2 * j);
    }
  }

  lemma {:induction false} CanonLevel<H>(h: TreeHash<H>, log: seq<H>, k: nat, j: nat)
    requires Start(k, j) < |log|
    ensures Block(h, log, k, j).interior <==> Level(Canon(|log|, k, j)) != 0
    decreases k
  {
    LevelOfId(k, j);
    if k > 0 && Start(k - 1, 2 * j + 1) >= |log| {
      CanonLevel(h, log, k - 1, 2 * j);
    }
  }

  // Cutting the tree into tiles --------------------------------------------------------------

  /** Which blocks are given by one hash instead of by their leaves. */
  type Cut = (nat, nat) -> bool

  predicate IsTile(cut: Cut, k: nat, j: nat) {
    k == 0 || cut(k, j)
  }

  /** The ids of the tiles of block (k, j), from left to right. */
  function Tiles(n: nat, k: nat, j: nat, cut: Cut): (ids: seq<nat>)
    requires Start(k, j) < n
    ensures |ids| > 0
    decreases k
  {
    if IsTile(cut, k, j) then [Canon(n, k, j)]
    else if Start(k - 1, 2 * j + 1) < n then Tiles(n, k - 1, 2 * j, cut) + Tiles(n, k - 1, 2 * j + 1, cut)
    else Tiles(n, k - 1, 2 * j, cut)
  }

  lemma TilesFork(n: nat, k: nat, j: nat, cut: Cut)
    requires Start(k, j) < n && !IsTile(cut, k, j)
    ensures Start(k - 1, 2 * j) < n
    ensures Start(k - 1, 2 * j + 1) < n ==>
      Tiles(n, k, j, cut) == Tiles(n, k - 1, 2 * j, cut) + Tiles(n, k - 1, 2 * j + 1, cut)
    ensures Start(k - 1, 2 * j + 1) >= n ==> Tiles(n, k, j, cut) == Tiles(n, k - 1, 2 * j, cut)
  {
  }

  /** The node that results from given hashes for the tiles. */
  function Eval<H>(h: TreeHash<H>, n: nat, k: nat, j: nat, cut: Cut, vs: seq<H>): NodeData<H>
    requires Start(k, j) < n && |vs| == |Tiles(n, k, j, cut)|
    decreases k
  {
    if IsTile(cut, k, j) then NodeData(Level(Canon(n, k, j)) != 0, vs[0])
    else if Start(k - 1, 2 * j + 1) < n then
      var c := |Tiles(n, k - 1, 2 * j, cut)|;
      Combine(h, Eval(h, n, k - 1, 2 * j, cut, vs[..c]), Eval(h, n, k - 1, 2 * j + 1, cut, vs[c..]))
    else Eval(h, n, k - 1, 2 * j, cut, vs)
  }

  /** The hashes a log has at the tiles. */
  function TileHashes<H>(h: TreeHash<H>, log: seq<H>, k: nat, j: nat, cut: Cut): (vs: seq<H>)
    requires Start(k, j) < |log|
    ensures |vs| == |Tiles(|log|, k, j, cut)|
    decreases k
  {
    if IsTile(cut, k, j) then [Block(h, log, k, j).value]
    else if Start(k - 1, 2 * j + 1) < |log| then
      TileHashes(h, log, k - 1, 2 * j, cut) + TileHashes(h, log, k - 1, 2 * j + 1, cut)
    else TileHashes(h, log, k - 1, 2 * j, cut)
  }

  lemma TileHashesFork<H>(h: TreeHash<H>, log: seq<H>, k: nat, j: nat, cut: Cut)
    requires Start(k, j) < |log| && !IsTile(cut, k, j)
    ensures Start(k - 1, 2 * j) < |log|
    ensures Start(k - 1, 2 * j + 1) < |log| ==>
      TileHashes(h, log, k, j, cut) == TileHashes(h, log, k - 1, 2 * j, cut) + TileHashes(h, log, k - 1, 2 * j + 1, cut)
    ensures Start(k - 1, 2 * j + 1) >= |log| ==> TileHashes(h, log, k, j, cut) == TileHashes(h, log, k - 1, 2 * j, cut)
  {
  }

  lemma {:induction false} EvalOfHashes<H>(h: TreeHash<H>, log: seq<H>, k: nat, j: nat, cut: Cut)
    requires Start(k, j) < |log|
    ensures Eval(h, |log|, k, j, cut, TileHashes(h, log, k, j, cut)) == Block(h, log, k, j)
    decreases k
  {
    if IsTile(cut, k, j) {
      CanonLevel(h, log, k, j);
    } else {
      EvalOfHashes(h, log, k - 1, 2 * j, cut);
      if Start(k - 1, 2 * j + 1) < |log| {
        EvalOfHashes(h, log, k - 1, 2 * j + 1, cut);
        var l, r := TileHashes(h, log, k - 1, 2 * j, cut), TileHashes(h, log, k - 1, 2 * j + 1, cut);
        assert (l + r)[..|l|] == l && (l + r)[|l|..] == r;
      }
    }
  }

  /** Somewhere below node (k, j), evaluating the given hashes and hashing the log come to the same value
      from different children: a collision of the hash function, in plain sight. */
  ghost predicate ClashBelow<H>(h: TreeHash<H>, log: seq<H>, k: nat, j: nat, cut: Cut, vs: seq<H>)
    requires Start(k, j) < |log| && |vs| == |Tiles(|log|, k, j, cut)|
    decreases k
  {
    if IsTile(cut, k, j) then false
    else if Start(k - 1, 2 * j + 1) < |log| then
      var n, c := |log|, |Tiles(|log|, k - 1, 2 * j, cut)|;
      || Collide(h, Eval(h, n, k - 1, 2 * j, cut, vs[..c]), Eval(h, n, k - 1, 2 * j + 1, cut, vs[c..]),
                 Block(h, log, k - 1, 2 * j), Block(h, log, k - 1, 2 * j + 1))
      || ClashBelow(h, log, k - 1, 2 * j, cut, vs[..c])
      || ClashBelow(h, log, k - 1, 2 * j + 1, cut, vs[c..])
    else ClashBelow(h, log, k - 1, 2 * j, cut, vs)
  }

  /** Collision-free hash functions never clash. */
  lemma {:induction false} NoClash<H(!new)>(h: TreeHash<H>, log: seq<H>, k: nat, j: nat, cut: Cut, vs: seq<H>)
    requires CollisionFree(h) && Start(k, j) < |log| && |vs| == |Tiles(|log|, k, j, cut)|
    ensures !ClashBelow(h, log, k, j, cut, vs)
    decreases k
  {
    hide Block, Eval;
    if IsTile(cut, k, j) {
    } else if Start(k - 1, 2 * j + 1) < |log| {
      var c := |Tiles(|log|, k - 1, 2 * j, cut)|;
      NoClash(h, log, k - 1, 2 * j, cut, vs[..c]);
      NoClash(h, log, k - 1, 2 * j + 1, cut, vs[c..]);
    } else {
      NoClash(h, log, k - 1, 2 * j, cut, vs);
    }
  }

  /** Without a clash, only the log's own hashes evaluate to the log's node. */
  lemma {:induction false} EvalBinds<H>(h: TreeHash<H>, log: seq<H>, k: nat, j: nat, cut: Cut, vs: seq<H>)
    requires Start(k, j) < |log| && |vs| == |Tiles(|log|, k, j, cut)| && !ClashBelow(h, log, k, j, cut, vs)
    requires Eval(h, |log|, k, j, cut, vs).value == Block(h, log, k, j).value
    ensures vs == TileHashes(h, log, k, j, cut)
    decreases k
  {
    hide Tiles, TileHashes, Canon;
    if IsTile(cut, k, j) {
      OneTile(h, log, k, j, cut);
    } else {
      TilesFork(|log|, k, j, cut);
      TileHashesFork(h, log, k, j, cut);
      if Start(k - 1, 2 * j + 1) < |log| {
        var c := |Tiles(|log|, k - 1, 2 * j, cut)|;
        EvalBinds(h, log, k - 1, 2 * j, cut, vs[..c]);
        EvalBinds(h, log, k - 1, 2 * j + 1, cut, vs[c..]);
        assert vs == vs[..c] + vs[c..];
      } else {
        EvalBinds(h, log, k - 1, 2 * j, cut, vs);
      }
    }
  }

  lemma OneTile<H>(h: TreeHash<H>, log: seq<H>, k: nat, j: nat, cut: Cut)
    requires Start(k, j) < |log| && IsTile(cut, k, j)
    ensures |Tiles(|log|, k, j, cut)| == 1 && TileHashes(h, log, k, j, cut) == [Block(h, log, k, j).value]
  {
  }

  /** Exactness: given hashes evaluate to the root of a log iff they are that log's hashes. */
  lemma EvalIsExact<H>(h: TreeHash<H>, log: seq<H>, cut: Cut, vs: seq<H>)
    requires log != [] && Start(Height(|log|), 0) < |log|
    requires |vs| == |Tiles(|log|, Height(|log|), 0, cut)| && !ClashBelow(h, log, Height(|log|), 0, cut, vs)
    ensures Eval(h, |log|, Height(|log|), 0, cut, vs).value == LogRoot(h, log)
            <==> vs == TileHashes(h, log, Height(|log|), 0, cut)
  {
    TopBlock(h, log);
    EvalOfHashes(h, log, Height(|log|), 0, cut);
    if Eval(h, |log|, Height(|log|), 0, cut, vs).value == LogRoot(h, log) {
      EvalBinds(h, log, Height(|log|), 0, cut, vs);
    }
  }
}
