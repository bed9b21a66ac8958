/** Navigation of the Log Tree: every intermediate node has two children (log.rs, module math). */
module LogMath {
  import opened Bits
  import opened LeftBalanced
  import opened Merkle
  import opened Sequences

  function NodeWidth(n: nat): nat {
    if n == 0 then 0 else 2 * (n - 1) + 1
  }

  function Root(n: nat): (r: nat) {
    ShlPow2(1, Log2(NodeWidth(n)));
    Shl(1, Log2(NodeWidth(n))) - 1
  }

  function Left(x: nat): nat
    requires Level(x) > 0
  {
    LeftStep(x)
  }

  /** A node id of a tree with n leaves: a leaf, or a node with leaves below both children. */
  lemma NodeIds(n: nat, k: nat, j: nat)
    requires n > 0
    ensures Id(k, j) < NodeWidth(n) <==> Start(k, j) < n && Canon(n, k, j) == Id(k, j)
    ensures Id(k, j) < NodeWidth(n) <==> if k == 0 then j < n else Start(k - 1, 2 * j + 1) < n
  {
    hide Id, Start, Level;
    IdIsMiddle(k, j);
    if k == 0 {
      LeafIds(j);
    } else {
      StartNext(k - 1, 2 * j);
      InnerStart(k, j);
      if Start(k, j) < n && Start(k - 1, 2 * j + 1) >= n {
        CanonIsLower(n, k, j);
        LevelOfId(k, j);
      }
    }
  }

  lemma LeafIds(j: nat)
    ensures Id(0, j) == 2 * j && Start(0, j) == j
  {
  }

  lemma InnerStart(k: nat, j: nat)
    requires k > 0
    ensures Start(k - 1, 2 * j) == Start(k, j) && Start(k - 1, 2 * j + 2) == Start(k, j + 1)
    ensures Start(k, j) < Start(k - 1, 2 * j + 1) < Start(k, j + 1)
  {
    StartNext(k - 1, 2 * j);
    StartNext(k - 1, 2 * j + 1);
  }

  lemma {:induction false} CanonIsLower(n: nat, k: nat, j: nat)
    requires Start(k, j) < n && k > 0 && Start(k - 1, 2 * j + 1) >= n
    ensures Level(Canon(n, k, j)) < k
    decreases k
  {
    LevelOfId(k - 1, 2 * j);
    if k > 1 && Start(k - 2, 4 * j + 1) >= n {
      CanonIsLower(n, k - 1, 2 * j);
    }
  }

  /** The root's id is the id of the whole tree. */
  lemma RootIsTop(n: nat)
    requires n > 0
    ensures Root(n) == Id(Height(n), 0) == Pow2(Height(n)) - 1
    ensures Start(Height(n), 0) < n && Canon(n, Height(n), 0) == Root(n)
  {
    hide Id, Start, Level, Shl, Pow2;
    RootPow2(n);
    HeightSpans(n);
    IdIsMiddle(Height(n), 0);
  }

  lemma RootPow2(n: nat)
    requires n > 0
    ensures Root(n) == Pow2(Height(n)) - 1
  {
    ShlPow2(1, Log2(NodeWidth(n)));
    assert n > 1 ==> NodeWidth(n) / 2 == n - 1;
  }

  /** Relative to its first leaf, a block is a tree of its own size. */
  lemma {:induction false} CanonIsRoot(n: nat, k: nat, j: nat)
    requires Start(k, j) < n
    ensures BlockEnd(n, k, j) > Start(k, j)
    ensures Canon(n, k, j) == 2 * Start(k, j) + Root(BlockEnd(n, k, j) - Start(k, j))
    decreases k
  {
    hide Id, Start, Level, Pow2, BlockEnd, Root;
    BlockBounds(n, k, j);
    var s := BlockEnd(n, k, j) - Start(k, j);
    RootIsTop(s);
    IdIsMiddle(k, j);
    if k == 0 {
      OneLeaf(n, j);
    } else if Start(k - 1, 2 * j + 1) < n {
      HeightIs(s, k);
    } else {
      CanonIsRoot(n, k - 1, 2 * j);
    }
  }

  lemma OneLeaf(n: nat, j: nat)
    requires Start(0, j) < n
    ensures BlockEnd(n, 0, j) - Start(0, j) == 1 && Height(1) == 0
  {
  }

  lemma HeightIs(s: nat, k: nat)
    requires k > 0 && Pow2(k - 1) < s <= 2 * Pow2(k - 1)
    ensures Height(s) == k
  {
    Log2Unique(s - 1, k - 1);
  }

  method Right(x: nat, n: nat) returns (r: nat)
    requires n > 0 && x < NodeWidth(n) && Level(x) > 0
    ensures Start(Level(x) - 1, 2 * Index(x) + 1) < n && r == Canon(n, Level(x) - 1, 2 * Index(x) + 1)
  {
    hide Id, Start, Level, Index, LeftStep, RightStep, Canon;
    Coordinates(x);
    ghost var k: nat, j: nat := Level(x) - 1, 2 * Index(x) + 1;
    NodeIds(n, Level(x), Index(x));
    ChildSteps(k, Index(x));
    r := RightStep(x);
    var w := NodeWidth(n);
    while r >= w
      invariant r == Id(k, j) && Start(k, j) < n
      invariant Canon(n, k, j) == Canon(n, Level(x) - 1, 2 * Index(x) + 1)
      decreases k
    {
      NodeIds(n, k, j);
      CanonDown(n, k, j);
      ChildSteps(k - 1, j);
      r := Left(r);
      k, j := k - 1, 2 * j;
    }
    NodeIds(n, k, j);
  }

  lemma CanonDown(n: nat, k: nat, j: nat)
    requires n > 0 && Start(k, j) < n && Id(k, j) >= NodeWidth(n)
    ensures k > 0 && Start(k - 1, 2 * j) < n && Start(k - 1, 2 * j + 1) >= n
    ensures Canon(n, k, j) == Canon(n, k - 1, 2 * j)
  {
    hide Id;
    NodeIds(n, k, j);
    LeafIds(j);
  }

  // Parents ---------------------------------------------------------------------------

  ghost predicate HasNode(n: nat, k: nat, j: nat) {
    if k == 0 then j < n else Start(k - 1, 2 * j + 1) < n
  }

  /** The nodes of a tree with n leaves are at most at the root's level, where there is only the root. */
  lemma TopOnly(n: nat, k: nat, j: nat)
    requires n > 0 && Start(k, j) < n
    ensures k >= Height(n) ==> j == 0
    ensures k > Height(n) ==> !HasNode(n, k, j)
    ensures Height(n) > 0 ==> HasNode(n, Height(n), 0)
  {
    hide Start, Height;
    HeightSpans(n);
    HeightOne();
    if k >= Height(n) {
      StartGrows(Height(n), k);
      if j > 0 {
        StartMono(k, 0, j);
        StartZero(k);
        StartNext(k, 0);
      }
      if k > Height(n) {
        StartGrows(Height(n), k - 1);
      }
    }
  }

  lemma HeightOne()
    ensures Height(1) == 0
  {
  }

  lemma {:induction false} StartGrows(i: nat, k: nat)
    requires i <= k
    ensures Start(i, 1) <= Start(k, 1)
    decreases k
  {
    if i < k {
      StartGrows(i, k - 1);
      StartDoubles(k - 1, 1);
    }
  }

  /** The first node above block (k, j). */
  function ParentUp(n: nat, k: nat, j: nat): (p: (nat, nat))
    requires n > 0 && k < Height(n)
    ensures k < p.0 <= Height(n)
    decreases Height(n) - k
  {
    if Start(k, 2 * (j / 2) + 1) < n || k + 1 == Height(n) then (k + 1, j / 2) else ParentUp(n, k + 1, j / 2)
  }

  lemma HalfStart(n: nat, k: nat, j: nat)
    requires Start(k, j) < n
    ensures Start(k + 1, j / 2) < n
    ensures j % 2 == 1 ==> Start(k, 2 * (j / 2) + 1) < n
  {
    if j % 2 == 1 {
      StartNext(k, j - 1);
    }
  }

  method Parent(x: nat, n: nat) returns (p: nat)
    requires n > 0 && x < NodeWidth(n) && x != Root(n)
    ensures Level(x) < Height(n) && var (k, j) := ParentUp(n, Level(x), Index(x)); p == Id(k, j) && p < NodeWidth(n)
  {
    hide Id, Start, Level, Index, ParentStep, Canon, Height, Root, NodeWidth;
    Coordinates(x);
    ghost var k: nat, j: nat := Level(x), Index(x);
    BelowTop(n, k, j);
    var width := NodeWidth(n);
    ParentStepAt(k, j);
    p := ParentStep(x);
    while p >= width
      invariant k < Height(n) && Start(k, j) < n && p == Id(k + 1, j / 2)
      invariant ParentUp(n, k, j) == ParentUp(n, Level(x), Index(x))
      decreases Height(n) - k
    {
      NodeIds(n, k + 1, j / 2);
      HalfStart(n, k, j);
      TopOnly(n, k + 1, j / 2);
      assert (2 * (j / 2)) / 2 == j / 2;
      k, j := k + 1, j / 2;
      ParentStepAt(k, j);
      p := ParentStep(p);
    }
    NodeIds(n, k + 1, j / 2);
  }

  lemma BelowTop(n: nat, k: nat, j: nat)
    requires n > 0 && Id(k, j) < NodeWidth(n) && Id(k, j) != Root(n)
    ensures k < Height(n) && Start(k, j) < n && HasNode(n, k, j)
  {
    hide Id, Start, Height, Root, NodeWidth;
    NodeIds(n, k, j);
    TopOnly(n, k, j);
    RootIsTop(n);
  }

  /** The other child of the first node above x. */
  method Sibling(x: nat, n: nat) returns (s: nat)
    requires n > 0 && x < NodeWidth(n) && x != Root(n)
    ensures Level(x) < Height(n)
    ensures var (k, j) := ParentUp(n, Level(x), Index(x));
      && Start(k - 1, 2 * j + 1) < n && Start(k - 1, 2 * j) < n
      && s == if x < Id(k, j) then Canon(n, k - 1, 2 * j + 1) else Canon(n, k - 1, 2 * j)
  {
    hide Id, Start, Level, Index, LeftStep, Canon, Height, Root, NodeWidth, ParentUp;
    var p := Parent(x, n);
    ghost var (k, j) := ParentUp(n, Level(x), Index(x));
    LevelOfId(k, j);
    ChildSteps(k - 1, j);
    NodeIds(n, k, j);
    LeftChildNode(n, k, j);
    if x < p {
      s := Right(p, n);
    } else {
      s := Left(p);
    }
  }

  lemma LeftChildNode(n: nat, k: nat, j: nat)
    requires n > 0 && k > 0 && Start(k - 1, 2 * j + 1) < n
    ensures Start(k - 1, 2 * j) < n && Canon(n, k - 1, 2 * j) == Id(k - 1, 2 * j)
  {
    hide Id, Start;
    InnerStart(k, j);
    if k > 1 {
      InnerStart(k - 1, 2 * j);
    }
  }

  /** Ids of different blocks of a level are ordered like the blocks. */
  lemma {:induction false} CanonRange(n: nat, k: nat, j: nat)
    requires Start(k, j) < n
    ensures 2 * Start(k, j) <= Canon(n, k, j) <= 2 * Start(k, j + 1) - 2
    decreases k
  {
    hide Id, Pow2;
    IdIsMiddle(k, j);
    StartNext(k, j);
    if k > 0 && Start(k - 1, 2 * j + 1) >= n {
      InnerStart(k, j);
      CanonRange(n, k - 1, 2 * j);
    }
  }

  lemma {:induction false} ParentOfCanon(n: nat, k: nat, j: nat)
    requires n > 0 && Start(k, j) < n && k < Height(n)
    ensures var x := Canon(n, k, j);
      && x < NodeWidth(n) && x != Root(n) && Level(x) < Height(n)
      && ParentUp(n, Level(x), Index(x)) == ParentUp(n, k, j)
    decreases k
  {
    hide Id, Start, Level, Index, Height, Root, NodeWidth;
    LevelOfId(k, j);
    NodeIds(n, k, j);
    RootIsTop(n);
    LevelOfId(Height(n), 0);
    if k > 0 && Start(k - 1, 2 * j + 1) >= n {
      InnerStart(k, j);
      ParentOfCanon(n, k - 1, 2 * j);
      assert (2 * j) / 2 == j;
    }
  }

  /** The subtrees of all ids lie below a block. */
  ghost predicate Within(ids: seq<nat>, k: nat, j: nat) {
    forall i :: 0 <= i < |ids| ==> 2 * Start(k, j) <= Lo(ids[i]) && Hi(ids[i]) <= 2 * Start(k, j + 1) - 2
  }

  /** The subtrees of the ids are disjoint and ordered from left to right. */
  ghost predicate Separated(ids: seq<nat>) {
    forall i, j :: 0 <= i < j < |ids| ==> Hi(ids[i]) < Lo(ids[j])
  }

  lemma SeparatedIncreasing(ids: seq<nat>)
    requires Separated(ids)
    ensures Increasing(ids)
  {
    forall i, j | 0 <= i < j < |ids| ensures ids[i] < ids[j] {
      assert ids[i] <= Hi(ids[i]) < Lo(ids[j]) <= ids[j];
    }
  }

  lemma JoinSeparated(l: seq<nat>, r: seq<nat>, k: nat, j: nat)
    requires k > 0 && Separated(l) && Separated(r) && Within(l, k - 1, 2 * j) && Within(r, k - 1, 2 * j + 1)
    ensures Separated(l + r) && Within(l + r, k, j)
  {
    hide Start, Lo, Hi;
    InnerStart(k, j);
  }

  /** The node of a block spans exactly the block's leaves. */
  lemma {:induction false} CanonSpan(n: nat, k: nat, j: nat)
    requires Start(k, j) < n
    ensures var x := Canon(n, k, j);
      Lo(x) == 2 * Start(k, j) && 2 * BlockEnd(n, k, j) - 2 <= Hi(x) <= 2 * Start(k, j + 1) - 2
    decreases k
  {
    hide Start, Lo, Hi, Id;
    IntervalOfId(k, j);
    StartNext(k, j);
    BlockBounds(n, k, j);
    if k > 0 && Start(k - 1, 2 * j + 1) >= n {
      InnerStart(k, j);
      CanonSpan(n, k - 1, 2 * j);
    }
  }
}
