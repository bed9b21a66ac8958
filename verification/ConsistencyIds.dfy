/** Which nodes a consistency proof between two sizes of a log consists of (log.rs). */
module ConsistencyIds {
  import opened Bits
  import opened LeftBalanced
  import opened Merkle
  import opened LogMath

  function Shift(s: seq<nat>, d: nat): (r: seq<nat>)
    ensures |r| == |s| && forall i :: 0 <= i < |s| ==> r[i] == s[i] + d
  {
    seq(|s|, i requires 0 <= i < |s| => s[i] + d)
  }

  /** SUBPROOF of section 2.1.2 of RFC 6962, yielding node ids: a subtree of s leaves that starts at
      leaf a has the id 2a + Root(s). */
  function SubIds(m: nat, n: nat, b: bool): seq<nat>
    requires 0 < m <= n
    decreases n
  {
    if m == n then (if b then [] else [Root(m)])
    else
      var k := Split(n);
      if m <= k then SubIds(m, k, b) + [2 * k + Root(n - k)]
      else [Root(k)] + Shift(SubIds(m - k, n - k, false), 2 * k)
  }

  lemma SplitOfSource(n: nat)
    requires n >= 2
    ensures var p := Shl(1, Log2(n)); Split(n) == if p == n then p / 2 else p
  {
    hide Shl, Log2, Split;
    var e := Log2(n);
    ShlPow2(1, e);
    Log2Bounds(n);
    assert Pow2(e + 1) == 2 * Pow2(e);
    if Pow2(e) == n {
      assert e > 0 && n == 2 * Pow2(e - 1);
      SplitUnique(n, e - 1);
    } else {
      SplitUnique(n, e);
    }
  }

  lemma RootChildren(n: nat)
    requires n >= 2
    ensures Root(n) < NodeWidth(n) && Level(Root(n)) == Height(n) > 0 && Index(Root(n)) == 0
    ensures LeftStep(Root(n)) == Root(Split(n))
    ensures Start(Height(n) - 1, 1) < n && Canon(n, Height(n) - 1, 1) == 2 * Split(n) + Root(n - Split(n))
  {
    hide Id, Start, Level, Index, LeftStep, Root, NodeWidth, Canon, BlockEnd;
    var e := Height(n) - 1;
    HeightSpans(n);
    HeightPow2(n);
    RootIsTop(n);
    LevelOfId(e + 1, 0);
    NodeIds(n, e + 1, 0);
    ChildSteps(e, 0);
    StartIsPow2(e);
    SplitIsPow2(n);
    RootIsTop(Split(n));
    PowerHeight(e);
    BlockEndAtTop(n);
    CanonIsRoot(n, e, 1);
  }

  lemma SplitIsPow2(n: nat)
    requires n >= 2
    ensures Split(n) == Pow2(Height(n) - 1)
  {
  }

  lemma StartIsPow2(e: nat)
    ensures Start(e, 1) == Pow2(e) && Start(e, 0) == 0
  {
    StartZero(e);
    StartNext(e, 0);
  }

  lemma PowerHeight(e: nat)
    ensures Height(Pow2(e)) == e
  {
    if e > 0 {
      HeightIs(Pow2(e), e);
    }
  }

  lemma BlockEndAtTop(n: nat)
    requires n >= 2
    ensures BlockEnd(n, Height(n) - 1, 1) == n
  {
    hide Start, Height;
    HeightSpans(n);
    HeightPow2(n);
    InnerStart(Height(n), 0);
  }

  method SubProof(m: nat, n: nat, b: bool, output: seq<nat>) returns (ids: seq<nat>)
    requires 0 < m <= n
    ensures ids == output + SubIds(m, n, b)
    decreases n
  {
    hide Root, Level, Index, LeftStep, NodeWidth, Height, Canon, Start, Split, Shl, Log2, SubIds;
    if m == n {
      SubIdsWhole(m, b);
      if !b {
        return output + [Root(m)];
      }
      return output;
    }
    var k := Shl(1, Log2(n));
    if k == n {
      k := k / 2;
    }
    SplitOfSource(n);
    RootChildren(n);
    SubIdsUnfold(m, n, b);
    if m <= k {
      ids := SubProof(m, k, b, output);
      var r := Right(Root(n), n);
      ids := ids + [r];
    } else {
      ids := output + [Left(Root(n))];
      var start := |ids|;
      ids := SubProof(m - k, n - k, false, ids);
      ids := FixUp(ids, start, 2 * k);
      Moved(output, Root(k), SubIds(m - k, n - k, false), 2 * k);
    }
  }

  lemma Moved(output: seq<nat>, x: nat, sub: seq<nat>, d: nat)
    ensures var all := output + [x] + sub;
      all[..|output| + 1] + Shift(all[|output| + 1..], d) == output + ([x] + Shift(sub, d))
  {
    var all := output + [x] + sub;
    assert all[..|output| + 1] == output + [x] && all[|output| + 1..] == sub;
  }

  lemma SubIdsUnfold(m: nat, n: nat, b: bool)
    requires 0 < m < n
    ensures m <= Split(n) ==> SubIds(m, n, b) == SubIds(m, Split(n), b) + [2 * Split(n) + Root(n - Split(n))]
    ensures m > Split(n) ==>
      SubIds(m, n, b) == [Root(Split(n))] + Shift(SubIds(m - Split(n), n - Split(n), false), 2 * Split(n))
  {
  }

  lemma SubIdsWhole(m: nat, b: bool)
    requires 0 < m
    ensures SubIds(m, m, b) == if b then [] else [Root(m)]
  {
  }

  /** Moves the ids of a sub-proof to where its subtree is. */
  method FixUp(output: seq<nat>, start: nat, d: nat) returns (ids: seq<nat>)
    requires start <= |output|
    ensures ids == output[..start] + Shift(output[start..], d)
  {
    ids := output;
    for i := start to |ids|
      invariant |ids| == |output|
      invariant forall t :: 0 <= t < |ids| ==> ids[t] == if start <= t < i then output[t] + d else output[t]
    {
      ids := ids[i := ids[i] + d];
    }
  }

  method ConsistencyProof(m: nat, n: nat) returns (ids: seq<nat>)
    requires 0 < m <= n
    ensures ids == SubIds(m, n, true)
  {
    ids := SubProof(m, n, true, []);
  }

  // The ids as tiles ------------------------------------------------------------------------

  /** Cuts at the blocks that size m does not run through the middle of. */
  ghost function SizeCut(m: nat): Cut {
    (k: nat, j: nat) => !(Start(k, j) < m < Start(k, j + 1))
  }

  lemma ShiftShift(s: seq<nat>, d: nat, e: nat)
    ensures Shift(Shift(s, d), e) == Shift(s, d + e)
  {
  }

  lemma ShiftConcat(s: seq<nat>, t: seq<nat>, d: nat)
    ensures Shift(s + t, d) == Shift(s, d) + Shift(t, d)
  {
  }

  lemma CutTile(n: nat, k: nat, j: nat, m: nat)
    requires Start(k, j) < n && !(Start(k, j) < m < Start(k, j + 1))
    ensures Tiles(n, k, j, SizeCut(m)) == [Canon(n, k, j)]
  {
  }

  lemma ForkTile(n: nat, k: nat, j: nat, m: nat)
    requires k > 0 && Start(k, j) < n && Start(k, j) < m < Start(k, j + 1)
    ensures Start(k - 1, 2 * j) < n
    ensures Start(k - 1, 2 * j + 1) < n ==>
      Tiles(n, k, j, SizeCut(m)) == Tiles(n, k - 1, 2 * j, SizeCut(m)) + Tiles(n, k - 1, 2 * j + 1, SizeCut(m))
    ensures Start(k - 1, 2 * j + 1) >= n ==> Tiles(n, k, j, SizeCut(m)) == Tiles(n, k - 1, 2 * j, SizeCut(m))
  {
    hide Start, Tiles;
    TilesFork(n, k, j, SizeCut(m));
  }

  /** The ids of a sub-proof for size m within block (k, j), moved to where the block is. */
  function SubIdsAt(n: nat, k: nat, j: nat, m: nat): seq<nat>
    requires Start(k, j) < m <= BlockEnd(n, k, j)
  {
    Shift(SubIds(m - Start(k, j), BlockEnd(n, k, j) - Start(k, j), false), 2 * Start(k, j))
  }

  /** A sub-proof is the tiling of its block. */
  lemma {:induction false} SubIdsAreTiles(n: nat, k: nat, j: nat, m: nat)
    requires Start(k, j) < m <= BlockEnd(n, k, j) <= n
    requires m == BlockEnd(n, k, j) ==> m == Start(k, j + 1)
    ensures Start(k, j) < n
    ensures SubIdsAt(n, k, j, m) == Tiles(n, k, j, SizeCut(m))
    decreases k
  {
    hide Start, BlockEnd, Root, SubIds, Canon, Split, Pow2, Tiles, SubIdsAt;
    BlockBounds(n, k, j);
    BlockEndAtMost(n, k, j);
    if m == BlockEnd(n, k, j) {
      SubIdsOfWhole(n, k, j);
      CutTile(n, k, j, m);
    } else if k == 0 {
      LeafIsThin(n, j);
    } else {
      ForkTile(n, k, j, m);
      InnerStart(k, j);
      BlockEndAtMost(n, k - 1, 2 * j);
      if Start(k - 1, 2 * j + 1) >= n {
        SubIdsAreTiles(n, k - 1, 2 * j, m);
        SubIdsUnpaired(n, k, j, m);
      } else if m <= Start(k - 1, 2 * j + 1) {
        SubIdsAreTiles(n, k - 1, 2 * j, m);
        CutTile(n, k - 1, 2 * j + 1, m);
        SubIdsLeft(n, k, j, m);
      } else {
        SubIdsAreTiles(n, k - 1, 2 * j + 1, m);
        CutTile(n, k - 1, 2 * j, m);
        SubIdsRight(n, k, j, m);
      }
    }
  }

  lemma SubIdsOfWhole(n: nat, k: nat, j: nat)
    requires Start(k, j) < n
    ensures Start(k, j) < BlockEnd(n, k, j) && SubIdsAt(n, k, j, BlockEnd(n, k, j)) == [Canon(n, k, j)]
  {
    hide Start, BlockEnd, Root, SubIds, Canon;
    BlockBounds(n, k, j);
    SubIdsWhole(BlockEnd(n, k, j) - Start(k, j), false);
    CanonIsRoot(n, k, j);
  }

  lemma SubIdsUnpaired(n: nat, k: nat, j: nat, m: nat)
    requires k > 0 && Start(k, j) < m < BlockEnd(n, k, j) && Start(k - 1, 2 * j + 1) >= n
    ensures Start(k - 1, 2 * j) < m <= BlockEnd(n, k - 1, 2 * j)
    ensures SubIdsAt(n, k, j, m) == SubIdsAt(n, k - 1, 2 * j, m)
  {
    hide Start, BlockEnd, SubIds;
    BelowEnd(n, k, j);
    BlockBounds(n, k, j);
  }

  lemma BelowEnd(n: nat, k: nat, j: nat)
    ensures BlockEnd(n, k, j) <= n
  {
  }

  lemma SubIdsLeft(n: nat, k: nat, j: nat, m: nat)
    requires k > 0 && Start(k, j) < m < BlockEnd(n, k, j) && m <= Start(k - 1, 2 * j + 1) < n
    ensures Start(k - 1, 2 * j) < m <= BlockEnd(n, k - 1, 2 * j)
    ensures SubIdsAt(n, k, j, m) == SubIdsAt(n, k - 1, 2 * j, m) + [Canon(n, k - 1, 2 * j + 1)]
  {
    hide Start, BlockEnd, Root, SubIds, Canon, Split, Pow2;
    BelowEnd(n, k, j);
    BlockBounds(n, k, j);
    var a, mid, e := Start(k, j), Start(k - 1, 2 * j + 1), BlockEnd(n, k, j);
    SplitUnique(e - a, k - 1);
    SubIdsUnfold(m - a, e - a, false);
    CanonIsRoot(n, k - 1, 2 * j + 1);
    ShiftConcat(SubIds(m - a, mid - a, false), [2 * (mid - a) + Root(e - mid)], 2 * a);
  }

  lemma SubIdsRight(n: nat, k: nat, j: nat, m: nat)
    requires k > 0 && Start(k, j) < m < BlockEnd(n, k, j) && Start(k - 1, 2 * j + 1) < m
    ensures Start(k - 1, 2 * j) < n && Start(k - 1, 2 * j + 1) < m <= BlockEnd(n, k - 1, 2 * j + 1)
    ensures SubIdsAt(n, k, j, m) == [Canon(n, k - 1, 2 * j)] + SubIdsAt(n, k - 1, 2 * j + 1, m)
  {
    hide Start, BlockEnd, Root, SubIds, Canon, Split, Pow2;
    BelowEnd(n, k, j);
    BlockBounds(n, k, j);
    var a, mid, e := Start(k, j), Start(k - 1, 2 * j + 1), BlockEnd(n, k, j);
    SplitUnique(e - a, k - 1);
    SubIdsUnfold(m - a, e - a, false);
    CanonIsRoot(n, k - 1, 2 * j);
    var p := mid - a;
    ShiftConcat([Root(p)], Shift(SubIds(m - mid, e - mid, false), 2 * p), 2 * a);
    ShiftShift(SubIds(m - mid, e - mid, false), 2 * p, 2 * a);
  }

  lemma BlockEndAtMost(n: nat, k: nat, j: nat)
    ensures BlockEnd(n, k, j) <= Start(k, j + 1)
    ensures BlockEnd(n, k, j) < n ==> BlockEnd(n, k, j) == Start(k, j + 1)
  {
  }

  lemma LeafIsThin(n: nat, j: nat)
    requires Start(0, j) < n
    ensures BlockEnd(n, 0, j) == Start(0, j) + 1
  {
  }

  /** Leaving the root out: the flag of SUBPROOF only matters when m is a power of two. */
  ghost predicate IsPowerOfTwo(m: nat)
    requires m > 0
  {
    m == Pow2(Height(m))
  }

  lemma {:induction false} SubIdsFlag(m: nat, n: nat)
    requires 0 < m < n
    ensures SubIds(m, n, false) == (if IsPowerOfTwo(m) then [Root(m)] else []) + SubIds(m, n, true)
    decreases n
  {
    hide Root, SubIds, Pow2, Height, Shift, Split;
    var k := Split(n);
    SubIdsUnfold(m, n, false);
    SubIdsUnfold(m, n, true);
    SplitIsPow2(n);
    HeightPow2(n);
    PowerHeight(Height(n) - 1);
    if m == k {
      SubIdsWhole(m, false);
      SubIdsWhole(m, true);
    } else if m < k {
      SubIdsFlag(m, k);
    } else {
      BetweenPowers(m, n);
    }
  }

  lemma BetweenPowers(m: nat, n: nat)
    requires n >= 2 && Split(n) < m < n
    ensures !IsPowerOfTwo(m)
  {
    hide Log2, Height;
    HeightPow2(n);
    SplitIsPow2(n);
    assert Pow2(Height(n)) == 2 * Pow2(Height(n) - 1);
    HeightIs(m, Height(n));
  }

  // The full subtrees of a tree ------------------------------------------------------------------

  ghost function FullCut(n: nat): Cut {
    (k: nat, j: nat) => Start(k, j + 1) <= n
  }

  predicate IsFullSubtree(x: nat, n: nat)
    requires n > 0
  {
    x + Shl(1, Level(x)) - 1 <= 2 * (n - 1)
  }

  lemma FullSubtreeMeans(k: nat, j: nat, n: nat)
    requires n > 0
    ensures IsFullSubtree(Id(k, j), n) <==> Start(k, j + 1) <= n
  {
    hide Id, Start, Level, Shl, Pow2;
    LevelOfId(k, j);
    ShlPow2(1, k);
    IdIsMiddle(k, j);
    StartNext(k, j);
  }

  /** The tiles of a block, seen from the block's node. */
  lemma {:induction false} TilesOfCanon(n: nat, k: nat, j: nat)
    requires n > 0 && Start(k, j) < n
    ensures var x := Canon(n, k, j);
      && x < NodeWidth(n) && Start(Level(x), Index(x)) < n
      && Tiles(n, Level(x), Index(x), FullCut(n)) == Tiles(n, k, j, FullCut(n))
    decreases k
  {
    hide Id, Start, Level, Index, Tiles, NodeWidth;
    LevelOfId(k, j);
    NodeIds(n, k, j);
    if k > 0 && Start(k - 1, 2 * j + 1) >= n {
      InnerStart(k, j);
      TilesFork(n, k, j, FullCut(n));
      TilesOfCanon(n, k - 1, 2 * j);
    }
  }

  lemma FullForks(n: nat, k: nat, j: nat)
    requires n > 0 && Id(k, j) < NodeWidth(n)
    ensures Start(k, j) < n
    ensures Start(k, j + 1) <= n ==> Tiles(n, k, j, FullCut(n)) == [Id(k, j)]
    ensures Start(k, j + 1) > n ==> k > 0 && Start(k - 1, 2 * j + 1) < n
    ensures Start(k, j + 1) > n ==>
      Tiles(n, k, j, FullCut(n)) == [Id(k - 1, 2 * j)] + Tiles(n, k - 1, 2 * j + 1, FullCut(n))
  {
    hide Id, Start, NodeWidth;
    NodeIds(n, k, j);
    if Start(k, j + 1) > n {
      if k > 0 {
        InnerStart(k, j);
        LeftChildNode(n, k, j);
        TilesFork(n, k, j, FullCut(n));
      } else {
        LeafIds(j);
        LeafIds(j + 1);
      }
    }
  }

  method FullSubtrees(x0: nat, n: nat) returns (ids: seq<nat>)
    requires n > 0 && x0 < NodeWidth(n)
    ensures Start(Level(x0), Index(x0)) < n && ids == Tiles(n, Level(x0), Index(x0), FullCut(n))
  {
    hide Id, Start, Level, Index, NodeWidth, Tiles, FullCut, IsFullSubtree, LeftStep;
    var x: nat := x0;
    ids := [];
    Coordinates(x);
    FullForks(n, Level(x), Index(x));
    ghost var all := Tiles(n, Level(x), Index(x), FullCut(n));
    FullSubtreeMeans(Level(x), Index(x), n);
    while !IsFullSubtree(x, n)
      invariant x < NodeWidth(n) && Start(Level(x), Index(x)) < n
      invariant ids + Tiles(n, Level(x), Index(x), FullCut(n)) == all
      decreases Level(x)
    {
      ghost var k, j := Level(x), Index(x);
      Coordinates(x);
      FullSubtreeMeans(k, j, n);
      FullForks(n, k, j);
      ChildSteps(k - 1, j);
      CanonBelow(n, k - 1, 2 * j + 1);
      TilesOfCanon(n, k - 1, 2 * j + 1);
      var r := Right(x, n);
      ids := ids + [Left(x)];
      x := r;
    }
    Coordinates(x);
    FullSubtreeMeans(Level(x), Index(x), n);
    FullForks(n, Level(x), Index(x));
    ids := ids + [x];
  }

  lemma FullTile(n: nat, m: nat, k: nat, j: nat)
    requires Start(k, j + 1) <= m <= n && Start(k, j) < m
    ensures Tiles(n, k, j, SizeCut(m)) == [Id(k, j)] == Tiles(m, k, j, FullCut(m))
  {
    hide Start, Id;
    if k > 0 {
      InnerStart(k, j);
    }
  }

  lemma PrefixConcat(a: seq<nat>, b: seq<nat>, c: seq<nat>)
    ensures a <= b ==> a <= b + c && c + a <= c + b
  {
  }

  /** The full subtrees of the first m leaves lead the tiles of every larger log cut at m. */
  lemma {:induction false} FullTilesLead(n: nat, m: nat, k: nat, j: nat)
    requires m < n && Start(k, j) < m
    ensures Tiles(m, k, j, FullCut(m)) <= Tiles(n, k, j, SizeCut(m))
    decreases k
  {
    hide Start, Id, Tiles;
    if Start(k, j + 1) <= m {
      FullTile(n, m, k, j);
    } else if k == 0 {
      LeafIds(j);
      LeafIds(j + 1);
    } else {
      TilesFork(n, k, j, SizeCut(m));
      TilesFork(m, k, j, FullCut(m));
      InnerStart(k, j);
      var mid := Start(k - 1, 2 * j + 1);
      if mid < m {
        FullTile(n, m, k - 1, 2 * j);
        FullTilesLead(n, m, k - 1, 2 * j + 1);
        PrefixConcat(Tiles(m, k - 1, 2 * j + 1, FullCut(m)), Tiles(n, k - 1, 2 * j + 1, SizeCut(m)),
                     [Id(k - 1, 2 * j)]);
      } else {
        FullTilesLead(n, m, k - 1, 2 * j);
        if mid < n {
          PrefixConcat(Tiles(m, k - 1, 2 * j, FullCut(m)), Tiles(n, k - 1, 2 * j, SizeCut(m)),
                       Tiles(n, k - 1, 2 * j + 1, SizeCut(m)));
        }
      }
    }
  }

  /** Above the root of a small tree there is nothing more to see. */
  lemma {:induction false} TilesAboveTop(m: nat, k: nat)
    requires m > 0 && Height(m) <= k
    ensures Start(k, 0) < m && Start(Height(m), 0) < m
    ensures Tiles(m, k, 0, FullCut(m)) == Tiles(m, Height(m), 0, FullCut(m))
    decreases k
  {
    hide Start, Tiles, Height;
    StartZero(k);
    StartZero(Height(m));
    if Height(m) < k {
      TilesAboveTop(m, k - 1);
      HeightSpans(m);
      StartGrows(Height(m), k - 1);
      InnerStart(k, 0);
      TilesFork(m, k, 0, FullCut(m));
    }
  }

  lemma {:induction false} HeightMono(m: nat, n: nat)
    requires 0 < m <= n
    ensures Height(m) <= Height(n)
  {
    hide Log2, Height;
    HeightPow2(m);
    HeightPow2(n);
    HeightOne();
    if Height(n) < Height(m) {
      Pow2Mono(Height(n), Height(m) - 1);
    }
  }

  /** The consistency proof ids: the full subtrees of the old size, unless they are just its root, and
      then the rest of the tiles of the new size. */
  lemma ProofIds(m: nat, n: nat)
    requires 0 < m < n
    ensures Start(Height(n), 0) < n && Start(Height(m), 0) < m
    ensures var full, all := Tiles(m, Height(m), 0, FullCut(m)), Tiles(n, Height(n), 0, SizeCut(m));
      && full <= all
      && (full == [Root(m)] <==> |full| == 1)
      && all == (if |full| == 1 then full else []) + SubIds(m, n, true)
  {
    hide Start, Tiles, Height, Root, SubIds, SubIdsAt, Pow2;
    HeightMono(m, n);
    HeightSpans(n);
    TilesAboveTop(m, Height(n));
    FullTilesLead(n, m, Height(n), 0);
    SubIdsAtTop(n, m);
    SubIdsFlag(m, n);
    FullCount(m);
  }

  lemma SubIdsAtTop(n: nat, m: nat)
    requires 0 < m < n
    ensures Start(Height(n), 0) < n && Tiles(n, Height(n), 0, SizeCut(m)) == SubIds(m, n, false)
  {
    hide Start, Tiles, Height, Root, SubIds;
    HeightSpans(n);
    SubIdsAreTiles(n, Height(n), 0, m);
    assert Shift(SubIds(m, n, false), 0) == SubIds(m, n, false);
  }

  lemma FullCount(m: nat)
    requires m > 0
    ensures Start(Height(m), 0) < m
    ensures var full := Tiles(m, Height(m), 0, FullCut(m));
      (full == [Root(m)] <==> |full| == 1) && (|full| == 1 <==> IsPowerOfTwo(m))
  {
    hide Start, Tiles, Height, Root, Pow2, NodeWidth, Id;
    RootIsTop(m);
    HeightSpans(m);
    StartIsPow2(Height(m));
    NodeIds(m, Height(m), 0);
    FullForks(m, Height(m), 0);
  }

  // 64-bit words ---------------------------------------------------------------------------------

  lemma RootInWidth(n: nat)
    requires n > 0
    ensures Root(n) < NodeWidth(n)
  {
    hide Log2, Shl, Pow2;
    Log2Bounds(NodeWidth(n));
    ShlPow2(1, Log2(NodeWidth(n)));
  }

  /** All ids of a proof, also after they are moved, are nodes of the larger tree. */
  lemma {:induction false} SubIdsInWidth(m: nat, n: nat, b: bool)
    requires 0 < m <= n
    ensures forall i :: 0 <= i < |SubIds(m, n, b)| ==> SubIds(m, n, b)[i] < NodeWidth(n)
    decreases n
  {
    hide Root, Split;
    RootInWidth(m);
    if m < n {
      var k := Split(n);
      RootInWidth(n - k);
      RootInWidth(k);
      if m <= k {
        SubIdsInWidth(m, k, b);
      } else {
        SubIdsInWidth(m - k, n - k, false);
      }
    }
  }

  /** For trees of at most 2^62 leaves no sum of the log's arithmetic leaves its 64-bit word. */
  lemma SumsFitWord(n: nat, x: nat, m: nat)
    requires 0 < m <= n <= Pow2(62) && x < NodeWidth(n)
    ensures NodeWidth(n) < Pow2(63) && Root(n) < Pow2(63)
    ensures x + Shl(1, Level(x)) < Pow2(64)
    ensures forall i :: 0 <= i < |SubIds(m, n, true)| ==> SubIds(m, n, true)[i] < Pow2(63)
  {
    assert Pow2(63) == 2 * Pow2(62) && Pow2(64) == 2 * Pow2(63);
    hide Root, SubIds, Level, Shl, Pow2;
    RootInWidth(n);
    SubIdsInWidth(m, n, true);
    StepsFitWord(x);
    ShlPow2(1, Level(x));
    Pow2Mono(Level(x), 62);
  }
}
