/** The binary-counter calculator that folds nodes, inserted from left to right, into a root (log.rs). */
module RootCalculator {
  import opened Wrappers
  import opened Bits
  import opened LeftBalanced
  import opened Merkle

  datatype LogError = EmptyChain | MalformedChain | InvalidInput | MalformedProof | ProofMismatch | Unexpected

  type Chain<H> = seq<Option<NodeData<H>>>

  function Nones<H>(c: nat): (s: Chain<H>)
    ensures |s| == c && forall i :: 0 <= i < c ==> s[i] == None
  {
    seq(c, i => None)
  }

  /** Puts a node into slot i, carrying upwards through occupied slots. */
  function Put<H>(h: TreeHash<H>, c: Chain<H>, i: nat, nd: NodeData<H>): Chain<H>
    decreases |c| - i
  {
    if i >= |c| then c + Nones(i - |c|) + [Some(nd)]
    else if c[i].None? then c[i := Some(nd)]
    else Put(h, c[i := None], i + 1, Combine(h, c[i].value, nd))
  }

  function InsertAt<H>(h: TreeHash<H>, c: Chain<H>, level: nat, value: H): Chain<H> {
    Put(h, c, level, NodeData(level != 0, value))
  }

  /** The node from slot i upwards, with `nd` to the right of them. */
  function FoldFrom<H>(h: TreeHash<H>, c: Chain<H>, i: nat, nd: NodeData<H>): NodeData<H>
    decreases |c| - i
  {
    if i >= |c| then nd
    else FoldFrom(h, c, i + 1, if c[i].Some? then Combine(h, c[i].value, nd) else nd)
  }

  function FirstSome<H>(c: Chain<H>, i: nat): (r: nat)
    ensures i <= |c| ==> i <= r <= |c| && (r < |c| ==> c[r].Some?) && forall j :: i <= j < r ==> c[j].None?
    decreases |c| - i
  {
    if i >= |c| || c[i].Some? then i else FirstSome(c, i + 1)
  }

  function RootOf<H>(h: TreeHash<H>, c: Chain<H>): Result<H, LogError> {
    if c == [] then Err(EmptyChain)
    else var i := FirstSome(c, 0);
      if i == |c| then Err(MalformedChain) else Ok(FoldFrom(h, c, i + 1, c[i].value).value)
  }

  class SimpleRootCalculator<H> {
    const h: TreeHash<H>
    var chain: Chain<H>

    constructor (h: TreeHash<H>)
      ensures this.h == h && chain == []
    {
      this.h, this.chain := h, [];
    }

    method Insert(level: nat, value: H)
      modifies this
      ensures chain == InsertAt(h, old(chain), level, value)
    {
      if level + 1 > |chain| {
        chain := chain + Nones(level + 1 - |chain|);
      }
      var acc := NodeData(level != 0, value);
      var i := level;
      while i < |chain| && chain[i].Some?
        invariant level <= i <= |chain|
        invariant Put(h, chain, i, acc) == InsertAt(h, old(chain), level, value)
        decreases |chain| - i
      {
        acc := Combine(h, chain[i].value, acc);
        chain := chain[i := None];
        i := i + 1;
      }
      if i == |chain| {
        chain := chain + [Some(acc)];
      } else {
        chain := chain[i := Some(acc)];
      }
    }

    method Root() returns (r: Result<H, LogError>)
      ensures r == RootOf(h, chain)
    {
      if chain == [] {
        return Err(EmptyChain);
      }
      var p := 0;
      while p < |chain| && chain[p].None?
        invariant 0 <= p <= |chain| && FirstSome(chain, p) == FirstSome(chain, 0)
      {
        p := p + 1;
      }
      if p == |chain| {
        return Err(MalformedChain);
      }
      var acc := chain[p].value;
      for i := p + 1 to |chain|
        invariant FoldFrom(h, chain, i, acc) == FoldFrom(h, chain, p + 1, chain[p].value)
      {
        if chain[i].Some? {
          acc := Combine(h, chain[i].value, acc);
        }
      }
      return Ok(acc.value);
    }
  }

  // What a run over tiles computes ---------------------------------------------------------

  /** Inserts a hash at the level of each id, in order. */
  function Run<H>(h: TreeHash<H>, c: Chain<H>, ids: seq<nat>, vs: seq<H>): Chain<H>
    requires |ids| == |vs|
  {
    if ids == [] then c else
      InsertAt(h, Run(h, c, ids[..|ids| - 1], vs[..|ids| - 1]), Level(ids[|ids| - 1]), vs[|ids| - 1])
  }

  lemma {:induction false} RunAppends<H>(h: TreeHash<H>, c: Chain<H>, ids: seq<nat>, ids': seq<nat>, vs: seq<H>,
                                         vs': seq<H>)
    requires |ids| == |vs| && |ids'| == |vs'|
    ensures Run(h, c, ids + ids', vs + vs') == Run(h, Run(h, c, ids, vs), ids', vs')
    decreases |ids'|
  {
    if ids' == [] {
      assert ids + ids' == ids && vs + vs' == vs;
    } else {
      var e := |ids'| - 1;
      RunAppends(h, c, ids, ids'[..e], vs, vs'[..e]);
      assert (ids + ids')[..|ids| + e] == ids + ids'[..e];
      assert (vs + vs')[..|ids| + e] == vs + vs'[..e];
    }
  }

  /** The slots below level k are free: the leaves counted so far are a multiple of 2^k. */
  ghost predicate FreeBelow<H>(c: Chain<H>, k: nat) {
    forall i :: 0 <= i < k && i < |c| ==> c[i].None?
  }

  lemma PutTwice<H>(h: TreeHash<H>, c: Chain<H>, k: nat, a: NodeData<H>, b: NodeData<H>)
    requires FreeBelow(c, k + 1)
    ensures Put(h, Put(h, c, k, a), k, b) == Put(h, c, k + 1, Combine(h, a, b))
  {
    var d := Put(h, c, k, a);
    if k < |c| {
      assert d[k := None] == c;
    } else {
      assert d[k := None] == c + Nones(k + 1 - |c|);
      assert c + Nones(k + 1 - |c|) + Nones(0) + [Some(Combine(h, a, b))]
          == c + Nones(k + 1 - |c|) + [Some(Combine(h, a, b))];
    }
  }

  /** The hashes of the tiles of a full block count as one node of the block's level. */
  lemma {:induction false} RunFullBlock<H>(h: TreeHash<H>, n: nat, k: nat, j: nat, cut: Cut, vs: seq<H>, c: Chain<H>)
    requires Start(k, j + 1) <= n && Start(k, j) < n
    requires |vs| == |Tiles(n, k, j, cut)| && FreeBelow(c, k)
    ensures Run(h, c, Tiles(n, k, j, cut), vs) == Put(h, c, k, Eval(h, n, k, j, cut, vs))
    decreases k
  {
    hide Start, Run, Put, Level, Id;
    if IsTile(cut, k, j) {
      FullBlockId(n, k, j);
      RunOne(h, c, Id(k, j), vs);
    } else {
      FullBlockId(n, k, j);
      var l, r := Tiles(n, k - 1, 2 * j, cut), Tiles(n, k - 1, 2 * j + 1, cut);
      var m := |l|;
      var a, b := Eval(h, n, k - 1, 2 * j, cut, vs[..m]), Eval(h, n, k - 1, 2 * j + 1, cut, vs[m..]);
      RunFullBlock(h, n, k - 1, 2 * j, cut, vs[..m], c);
      PutFree(h, c, k - 1, a);
      RunFullBlock(h, n, k - 1, 2 * j + 1, cut, vs[m..], Put(h, c, k - 1, a));
      RunAppends(h, c, l, r, vs[..m], vs[m..]);
      assert vs == vs[..m] + vs[m..];
      PutTwice(h, c, k - 1, a, b);
    }
  }

  lemma FullBlockId(n: nat, k: nat, j: nat)
    requires Start(k, j + 1) <= n && Start(k, j) < n
    ensures Canon(n, k, j) == Id(k, j) && Level(Id(k, j)) == k
    ensures k > 0 ==> Start(k - 1, 2 * j) < n && Start(k - 1, 2 * j + 1) < Start(k - 1, 2 * j + 2) <= n
  {
    LevelOfId(k, j);
    if k > 0 {
      StartNext(k - 1, 2 * j + 1);
    }
  }

  lemma PutFree<H>(h: TreeHash<H>, c: Chain<H>, k: nat, nd: NodeData<H>)
    requires FreeBelow(c, k + 1)
    ensures FreeBelow(Put(h, c, k, nd), k)
  {
  }

  lemma RunOne<H>(h: TreeHash<H>, c: Chain<H>, id: nat, vs: seq<H>)
    requires |vs| == 1
    ensures Run(h, c, [id], vs) == InsertAt(h, c, Level(id), vs[0])
  {
    assert Run(h, c, [id][..0], vs[..0]) == c;
  }

  lemma {:induction false} FoldSkips<H>(h: TreeHash<H>, c: Chain<H>, i: nat, k: nat, nd: NodeData<H>)
    requires i <= k && forall t :: i <= t < k && t < |c| ==> c[t].None?
    ensures FoldFrom(h, c, i, nd) == FoldFrom(h, c, k, nd)
    decreases k - i
  {
    if i < k {
      FoldSkips(h, c, i + 1, k, nd);
    }
  }

  lemma {:induction false} FoldAgrees<H>(h: TreeHash<H>, c: Chain<H>, d: Chain<H>, i: nat, nd: NodeData<H>)
    requires |c| == |d| && forall t :: i <= t < |c| ==> c[t] == d[t]
    ensures FoldFrom(h, c, i, nd) == FoldFrom(h, d, i, nd)
    decreases |c| - i
  {
    if i < |c| {
      FoldAgrees(h, c, d, i + 1, if c[i].Some? then Combine(h, c[i].value, nd) else nd);
    }
  }

  lemma FirstSomeIs<H>(c: Chain<H>, i: nat)
    requires i < |c| && c[i].Some? && FreeBelow(c, i)
    ensures FirstSome(c, 0) == i
  {
    var r := FirstSome(c, 0);
    assert r >= i;
  }

  /** The root after putting a node: everything above folded onto it. */
  lemma {:induction false} RootAfterPut<H>(h: TreeHash<H>, c: Chain<H>, i: nat, nd: NodeData<H>)
    requires FreeBelow(c, i)
    ensures RootOf(h, Put(h, c, i, nd)) == Ok(FoldFrom(h, c, i, nd).value)
    decreases |c| - i
  {
    var d := Put(h, c, i, nd);
    if i >= |c| {
      FirstSomeIs(d, i);
    } else if c[i].None? {
      FirstSomeIs(d, i);
      FoldAgrees(h, c, d, i + 1, nd);
    } else {
      var nd' := Combine(h, c[i].value, nd);
      RootAfterPut(h, c[i := None], i + 1, nd');
      FoldAgrees(h, c, c[i := None], i + 1, nd');
    }
  }

  lemma FoldAfterPut<H>(h: TreeHash<H>, c: Chain<H>, k: nat, a: NodeData<H>, b: NodeData<H>)
    requires FreeBelow(c, k + 1)
    ensures FoldFrom(h, Put(h, c, k, a), k, b) == FoldFrom(h, c, k + 1, Combine(h, a, b))
  {
    if k < |c| {
      FoldAgrees(h, Put(h, c, k, a), c, k + 1, Combine(h, a, b));
    }
  }

  /** The same for any block, also a last one that the log only partly fills. */
  lemma {:induction false} RunBlock<H>(h: TreeHash<H>, n: nat, k: nat, j: nat, cut: Cut, vs: seq<H>, c: Chain<H>)
    requires Start(k, j) < n && |vs| == |Tiles(n, k, j, cut)| && FreeBelow(c, k)
    ensures RootOf(h, Run(h, c, Tiles(n, k, j, cut), vs)) == Ok(FoldFrom(h, c, k, Eval(h, n, k, j, cut, vs)).value)
    decreases k
  {
    hide Start, Run, Put, Level, Id, Canon, FoldFrom, RootOf;
    if IsTile(cut, k, j) {
      var id := Canon(n, k, j);
      CanonBelow(n, k, j);
      RunOne(h, c, id, vs);
      var nd := NodeData(Level(id) != 0, vs[0]);
      RootAfterPut(h, c, Level(id), nd);
      FoldSkips(h, c, Level(id), k, nd);
    } else {
      HalvesOf(n, k, j);
      if Start(k - 1, 2 * j + 1) < n {
        var l, r := Tiles(n, k - 1, 2 * j, cut), Tiles(n, k - 1, 2 * j + 1, cut);
        var m := |l|;
        var a, b := Eval(h, n, k - 1, 2 * j, cut, vs[..m]), Eval(h, n, k - 1, 2 * j + 1, cut, vs[m..]);
        RunFullBlock(h, n, k - 1, 2 * j, cut, vs[..m], c);
        PutFree(h, c, k - 1, a);
        RunBlock(h, n, k - 1, 2 * j + 1, cut, vs[m..], Put(h, c, k - 1, a));
        RunAppends(h, c, l, r, vs[..m], vs[m..]);
        assert vs == vs[..m] + vs[m..];
        FoldAfterPut(h, c, k - 1, a, b);
      } else {
        RunBlock(h, n, k - 1, 2 * j, cut, vs, c);
        FoldSkips(h, c, k - 1, k, Eval(h, n, k - 1, 2 * j, cut, vs));
      }
    }
  }

  lemma HalvesOf(n: nat, k: nat, j: nat)
    requires Start(k, j) < n && k > 0
    ensures Start(k - 1, 2 * j) == Start(k, j)
  {
  }

  /** Inserting hashes for all tiles of a log, from left to right, yields their evaluation. */
  lemma RunIsEval<H>(h: TreeHash<H>, n: nat, cut: Cut, vs: seq<H>)
    requires n > 0 && Start(Height(n), 0) < n && |vs| == |Tiles(n, Height(n), 0, cut)|
    ensures RootOf(h, Run(h, [], Tiles(n, Height(n), 0, cut), vs)) == Ok(Eval(h, n, Height(n), 0, cut, vs).value)
  {
    RunBlock(h, n, Height(n), 0, cut, vs, []);
  }

  /** The root does not depend on the cut: whichever full or ragged subtrees of a log stand for their
      leaves, inserting their hashes from left to right yields the Merkle root of the log. */
  lemma AnyCutGivesRoot<H>(h: TreeHash<H>, log: seq<H>, cut: Cut)
    requires log != []
    ensures Start(Height(|log|), 0) < |log|
    ensures var k := Height(|log|);
      RootOf(h, Run(h, [], Tiles(|log|, k, 0, cut), TileHashes(h, log, k, 0, cut))) == Ok(LogRoot(h, log))
  {
    hide Tiles, TileHashes, Eval, Run, RootOf, TreeOf;
    TopBlock(h, log);
    EvalOfHashes(h, log, Height(|log|), 0, cut);
    RunIsEval(h, |log|, cut, TileHashes(h, log, Height(|log|), 0, cut));
  }

  // The binary counter --------------------------------------------------------------------------

  /** From slot i on, the chain counts q blocks of level i: slot i is occupied iff q is odd, and then
      holds the q-th of those blocks. */
  ghost predicate Counts<H>(h: TreeHash<H>, log: seq<H>, c: Chain<H>, i: nat, q: nat)
    decreases |c| - i
  {
    if i >= |c| then q == 0 && i == |c|
    else
      && (if q % 2 == 1 then Start(i, q - 1) < |log| && c[i] == Some(Block(h, log, i, q - 1)) else c[i] == None)
      && Counts(h, log, c, i + 1, q / 2)
  }

  lemma {:induction false} CountsAgrees<H>(h: TreeHash<H>, log: seq<H>, c: Chain<H>, d: Chain<H>, i: nat, q: nat)
    requires Counts(h, log, c, i, q) && |c| == |d| && forall t :: i <= t < |c| ==> c[t] == d[t]
    ensures Counts(h, log, d, i, q)
    decreases |c| - i
  {
    if i < |c| {
      CountsAgrees(h, log, c, d, i + 1, q / 2);
    }
  }

  /** Putting the next block is incrementing the counter. */
  lemma {:induction false} PutCounts<H>(h: TreeHash<H>, log: seq<H>, c: Chain<H>, i: nat, q: nat)
    requires Counts(h, log, c, i, q) && Start(i, q + 1) <= |log| && Start(i, q) < |log|
    ensures Counts(h, log, Put(h, c, i, Block(h, log, i, q)), i, q + 1)
    ensures var d := Put(h, c, i, Block(h, log, i, q)); |c| <= |d| && forall t :: 0 <= t < i ==> d[t] == c[t]
    decreases |c| - i
  {
    hide Block, Start, Counts;
    var d := Put(h, c, i, Block(h, log, i, q));
    CountsReach(h, log, c, i, q);
    if i >= |c| || c[i].None? {
      FillsSlot(h, log, c, i, q);
    } else {
      Carries(h, log, c, i, q);
      PutCounts(h, log, c[i := None], i + 1, q / 2);
      CarryOut(h, log, d, i, q);
    }
  }

  lemma {:induction false} CountsReach<H>(h: TreeHash<H>, log: seq<H>, c: Chain<H>, i: nat, q: nat)
    requires Counts(h, log, c, i, q)
    ensures i <= |c|
  {
  }

  lemma FillsSlot<H>(h: TreeHash<H>, log: seq<H>, c: Chain<H>, i: nat, q: nat)
    requires i <= |c| && (i < |c| ==> c[i].None?) && Counts(h, log, c, i, q) && Start(i, q) < |log|
    ensures Counts(h, log, Put(h, c, i, Block(h, log, i, q)), i, q + 1)
  {
    hide Block, Start;
    var nd := Block(h, log, i, q);
    var d := Put(h, c, i, nd);
    if i == |c| {
      assert d == c + [Some(nd)];
      assert Counts(h, log, d, i + 1, 0);
    } else {
      CountsAgrees(h, log, c, d, i + 1, q / 2);
    }
  }

  /** An occupied slot: the block to put is the right half of the one carried to the next slot. */
  lemma Carries<H>(h: TreeHash<H>, log: seq<H>, c: Chain<H>, i: nat, q: nat)
    requires Counts(h, log, c, i, q) && Start(i, q) < |log| && i < |c| && c[i].Some?
    ensures q % 2 == 1 && Counts(h, log, c[i := None], i + 1, q / 2)
    ensures Start(i + 1, q / 2) < |log| && Start(i + 1, q / 2 + 1) == Start(i, q + 1)
    ensures Block(h, log, i + 1, q / 2) == Combine(h, c[i].value, Block(h, log, i, q))
  {
    CountsAgrees(h, log, c, c[i := None], i + 1, q / 2);
    hide Counts;
    assert 2 * (q / 2) == q - 1;
    StartNext(i, q);
  }

  lemma CarryOut<H>(h: TreeHash<H>, log: seq<H>, d: Chain<H>, i: nat, q: nat)
    requires i < |d| && d[i] == None && q % 2 == 1 && Counts(h, log, d, i + 1, q / 2 + 1)
    ensures Counts(h, log, d, i, q + 1)
  {
  }

  /** After all leaves of a log are inserted, the chain is the binary counter of its length. */
  lemma {:induction false} LeavesCount<H>(h: TreeHash<H>, log: seq<H>, ids: seq<nat>, m: nat)
    requires m <= |log| && |ids| == m && forall i :: 0 <= i < m ==> ids[i] == 2 * i
    ensures Counts(h, log, Run(h, [], ids, log[..m]), 0, m)
    decreases m
  {
    if m > 0 {
      LeavesCount(h, log, ids[..m - 1], m - 1);
      assert log[..m][..m - 1] == log[..m - 1];
      PutCounts(h, log, Run(h, [], ids[..m - 1], log[..m - 1]), 0, m - 1);
    }
  }

  lemma {:induction false} CountsBits<H>(h: TreeHash<H>, log: seq<H>, c: Chain<H>, i: nat, q: nat, t: nat)
    requires Counts(h, log, c, i, q) && i <= t
    ensures t < |c| && Shr(q, t - i) % 2 == 1 ==>
              Start(t, Shr(q, t - i) - 1) < |log| && c[t] == Some(Block(h, log, t, Shr(q, t - i) - 1))
    ensures t < |c| && Shr(q, t - i) % 2 == 0 ==> c[t] == None
    ensures t >= |c| ==> Shr(q, t - i) == 0
    decreases t - i
  {
    if i < |c| && i < t {
      CountsBits(h, log, c, i + 1, q / 2, t);
    } else if i < t {
      ShrZero(t - i);
    }
  }

  lemma ShrZero(k: nat)
    ensures Shr(0, k) == 0
  {
  }

  /** Slot t of the chain after a log's leaves is occupied iff bit t of the log's length is set; it then
      holds the Merkle hash of the corresponding 2^t leaves. */
  lemma CounterSlots<H>(h: TreeHash<H>, log: seq<H>, ids: seq<nat>, t: nat)
    requires |ids| == |log| && forall i :: 0 <= i < |log| ==> ids[i] == 2 * i
    ensures var c := Run(h, [], ids, log); var q := Shr(|log|, t);
      if t < |c| && q % 2 == 1 then
        var a, b := (q - 1) * Pow2(t), q * Pow2(t);
        a < b <= |log| && c[t] == Some(TreeOf(h, log[a..b]))
      else (t < |c| ==> c[t] == None) && q % 2 == 0
  {
    hide *;
    var c := Run(h, [], ids, log);
    var q := Shr(|log|, t);
    assert log[..|log|] == log;
    LeavesCount(h, log, ids, |log|);
    CountsBits(h, log, c, 0, |log|, t);
    if t < |c| && q % 2 == 1 {
      BlockIsTree(h, log, t, q - 1);
      StartIsMultiple(t, q - 1);
      StartIsMultiple(t, q);
      ShrTimes(|log|, t);
      BlockEndIs(|log|, t, q - 1);
    }
  }

  lemma BlockEndIs(n: nat, k: nat, j: nat)
    ensures BlockEnd(n, k, j) == if Start(k, j + 1) < n then Start(k, j + 1) else n
  {
  }

  lemma {:induction false} ShrTimes(n: nat, t: nat)
    ensures Shr(n, t) * Pow2(t) <= n
    decreases t
  {
    if t > 0 {
      ShrTimes(n / 2, t - 1);
      DoubleProduct(Shr(n / 2, t - 1), Pow2(t - 1));
    }
  }
}
