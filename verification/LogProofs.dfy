/** Batch inclusion proofs of the Log Tree (log.rs, `evaluate_batch_proof`). */
module LogProofs {
  import opened Wrappers
  import opened LeftBalanced
  import opened Sequences
  import opened Merkle
  import opened LogMath
  import opened BatchCopath
  import opened RootCalculator

  // The hash a log has at a node id ----------------------------------------------------------

  ghost predicate InLog(n: nat, id: nat) {
    Start(Level(id), Index(id)) < n
  }

  ghost predicate AllInLog(n: nat, ids: seq<nat>) {
    forall i :: 0 <= i < |ids| ==> InLog(n, ids[i])
  }

  ghost function HashAt<H>(h: TreeHash<H>, log: seq<H>, id: nat): H
    requires InLog(|log|, id)
  {
    Block(h, log, Level(id), Index(id)).value
  }

  ghost function HashesAt<H>(h: TreeHash<H>, log: seq<H>, ids: seq<nat>): (vs: seq<H>)
    requires AllInLog(|log|, ids)
    ensures |vs| == |ids| && forall i :: 0 <= i < |ids| ==> vs[i] == HashAt(h, log, ids[i])
  {
    seq(|ids|, i requires 0 <= i < |ids| => HashAt(h, log, ids[i]))
  }

  lemma {:induction false} BlockOfCanon<H>(h: TreeHash<H>, log: seq<H>, k: nat, j: nat)
    requires Start(k, j) < |log|
    ensures var x := Canon(|log|, k, j); InLog(|log|, x) && HashAt(h, log, x) == Block(h, log, k, j).value
    decreases k
  {
    hide Id, Start, Level, Index;
    LevelOfId(k, j);
    if k > 0 && Start(k - 1, 2 * j + 1) >= |log| {
      HalvesOf(|log|, k, j);
      BlockOfCanon(h, log, k - 1, 2 * j);
    }
  }

  /** The hashes at the tiles are the log's hashes at the tiles' ids. */
  lemma {:induction false} TileHashesAt<H>(h: TreeHash<H>, log: seq<H>, k: nat, j: nat, cut: Cut)
    requires Start(k, j) < |log|
    ensures AllInLog(|log|, Tiles(|log|, k, j, cut))
    ensures TileHashes(h, log, k, j, cut) == HashesAt(h, log, Tiles(|log|, k, j, cut))
    decreases k
  {
    hide Start, Canon, InLog, Block, HashAt, Tiles, TileHashes;
    if IsTile(cut, k, j) {
      BlockOfCanon(h, log, k, j);
      SingleTile(h, log, k, j, cut);
    } else {
      TilesFork(|log|, k, j, cut);
      TileHashesFork(h, log, k, j, cut);
      TileHashesAt(h, log, k - 1, 2 * j, cut);
      if Start(k - 1, 2 * j + 1) < |log| {
        TileHashesAt(h, log, k - 1, 2 * j + 1, cut);
        HashesConcat(h, log, Tiles(|log|, k - 1, 2 * j, cut), Tiles(|log|, k - 1, 2 * j + 1, cut));
      }
    }
  }

  lemma SingleTile<H>(h: TreeHash<H>, log: seq<H>, k: nat, j: nat, cut: Cut)
    requires Start(k, j) < |log| && IsTile(cut, k, j)
    ensures Tiles(|log|, k, j, cut) == [Canon(|log|, k, j)]
    ensures TileHashes(h, log, k, j, cut) == [Block(h, log, k, j).value]
  {
  }

  lemma HashesConcat<H>(h: TreeHash<H>, log: seq<H>, a: seq<nat>, b: seq<nat>)
    requires AllInLog(|log|, a) && AllInLog(|log|, b)
    ensures AllInLog(|log|, a + b) && HashesAt(h, log, a + b) == HashesAt(h, log, a) + HashesAt(h, log, b)
  {
    hide InLog, HashAt;
  }

  lemma {:induction false} TilesSeparated(n: nat, k: nat, j: nat, cut: Cut)
    requires Start(k, j) < n
    ensures Separated(Tiles(n, k, j, cut)) && Within(Tiles(n, k, j, cut), k, j)
    decreases k
  {
    hide Start, Canon, Lo, Hi;
    CanonSpan(n, k, j);
    if !IsTile(cut, k, j) {
      InnerStart(k, j);
      TilesSeparated(n, k - 1, 2 * j, cut);
      if Start(k - 1, 2 * j + 1) < n {
        TilesSeparated(n, k - 1, 2 * j + 1, cut);
        JoinSeparated(Tiles(n, k - 1, 2 * j, cut), Tiles(n, k - 1, 2 * j + 1, cut), k, j);
      }
    }
  }

  // Batch inclusion proofs --------------------------------------------------------------------

  /** Cuts at the blocks that hold none of the leaves. */
  ghost function BatchCut(xs: set<nat>): Cut {
    (k: nat, j: nat) => !Touched(xs, k, j)
  }

  /** The ids of the given leaves below a block. */
  ghost function Given(n: nat, k: nat, j: nat, xs: set<nat>): seq<nat>
    requires Start(k, j) < n
    decreases k
  {
    if !Touched(xs, k, j) then []
    else if k == 0 then [2 * j]
    else if Start(k - 1, 2 * j + 1) < n then Given(n, k - 1, 2 * j, xs) + Given(n, k - 1, 2 * j + 1, xs)
    else Given(n, k - 1, 2 * j, xs)
  }

  lemma {:induction false} TilesAreGivenAndCopath(n: nat, k: nat, j: nat, xs: set<nat>)
    requires Start(k, j) < n
    ensures multiset(Tiles(n, k, j, BatchCut(xs))) == multiset(Given(n, k, j, xs)) + multiset(Copath(n, k, j, xs))
    decreases k
  {
    hide Start, Touched, Canon;
    if !Touched(xs, k, j) {
      assert Tiles(n, k, j, BatchCut(xs)) == [Canon(n, k, j)];
    } else if k == 0 {
      LeafIds(j);
      LeafTiles(n, j, xs);
    } else {
      TilesAbove(n, k, j, xs);
    }
  }

  lemma LeafTiles(n: nat, j: nat, xs: set<nat>)
    requires Start(0, j) < n && Touched(xs, 0, j)
    ensures Tiles(n, 0, j, BatchCut(xs)) == Given(n, 0, j, xs) == [2 * j] && Copath(n, 0, j, xs) == []
  {
  }

  lemma {:induction false} TilesAbove(n: nat, k: nat, j: nat, xs: set<nat>)
    requires k > 0 && Start(k, j) < n && Touched(xs, k, j)
    ensures multiset(Tiles(n, k, j, BatchCut(xs))) == multiset(Given(n, k, j, xs)) + multiset(Copath(n, k, j, xs))
    decreases k, 0
  {
    hide Start, Touched, Canon, Tiles, Given, Copath;
    var cut := BatchCut(xs);
    TilesFork(n, k, j, cut);
    BothFork(n, k, j, xs);
    TilesAreGivenAndCopath(n, k - 1, 2 * j, xs);
    if Start(k - 1, 2 * j + 1) < n {
      TilesAreGivenAndCopath(n, k - 1, 2 * j + 1, xs);
      JoinMultisets(Tiles(n, k - 1, 2 * j, cut), Tiles(n, k - 1, 2 * j + 1, cut),
                    Given(n, k - 1, 2 * j, xs), Given(n, k - 1, 2 * j + 1, xs),
                    Copath(n, k - 1, 2 * j, xs), Copath(n, k - 1, 2 * j + 1, xs));
    }
  }

  lemma BothFork(n: nat, k: nat, j: nat, xs: set<nat>)
    requires k > 0 && Start(k, j) < n && Touched(xs, k, j)
    ensures Start(k - 1, 2 * j) < n
    ensures Start(k - 1, 2 * j + 1) < n ==>
      && Given(n, k, j, xs) == Given(n, k - 1, 2 * j, xs) + Given(n, k - 1, 2 * j + 1, xs)
      && Copath(n, k, j, xs) == Copath(n, k - 1, 2 * j, xs) + Copath(n, k - 1, 2 * j + 1, xs)
    ensures Start(k - 1, 2 * j + 1) >= n ==>
      Given(n, k, j, xs) == Given(n, k - 1, 2 * j, xs) && Copath(n, k, j, xs) == Copath(n, k - 1, 2 * j, xs)
  {
  }

  lemma JoinMultisets(t: seq<nat>, t': seq<nat>, g: seq<nat>, g': seq<nat>, c: seq<nat>, c': seq<nat>)
    requires multiset(t) == multiset(g) + multiset(c) && multiset(t') == multiset(g') + multiset(c')
    ensures multiset(t + t') == multiset(g + g') + multiset(c + c')
  {
  }

  lemma {:induction false} GivenSeparated(n: nat, k: nat, j: nat, xs: set<nat>)
    requires Start(k, j) < n
    ensures Separated(Given(n, k, j, xs)) && Within(Given(n, k, j, xs), k, j)
    decreases k
  {
    hide Start, Lo, Hi, Touched;
    if Touched(xs, k, j) && k > 0 {
      InnerStart(k, j);
      GivenSeparated(n, k - 1, 2 * j, xs);
      if Start(k - 1, 2 * j + 1) < n {
        GivenSeparated(n, k - 1, 2 * j + 1, xs);
        JoinSeparated(Given(n, k - 1, 2 * j, xs), Given(n, k - 1, 2 * j + 1, xs), k, j);
      }
    } else if k == 0 {
      IntervalOfId(0, j);
      LeafIds(j);
      LeafIds(j + 1);
    }
  }

  lemma {:induction false} GivenElements(n: nat, k: nat, j: nat, xs: set<nat>, y: nat)
    requires Start(k, j) < n && forall x :: x in xs ==> x < n
    ensures y in Given(n, k, j, xs) <==> y % 2 == 0 && y / 2 in xs && Start(k, j) <= y / 2 < Start(k, j + 1)
    decreases k
  {
    hide Start;
    if k == 0 {
      LeafIds(j);
      LeafIds(j + 1);
    } else {
      InnerStart(k, j);
      GivenElements(n, k - 1, 2 * j, xs, y);
      if Start(k - 1, 2 * j + 1) < n {
        GivenElements(n, k - 1, 2 * j + 1, xs, y);
      }
    }
  }

  /** The given leaves and the copath, merged by id, are the tiles of the log. */
  lemma BatchTiles(x: seq<nat>, n: nat)
    requires LeafList(x, n)
    ensures n > 0 && Start(Height(n), 0) < n
    ensures Merge(Doubled(x), Copath(n, Height(n), 0, Elements(x))) == Tiles(n, Height(n), 0, BatchCut(Elements(x)))
  {
    hide Start, Height, Canon, Tiles, Given, Copath, Separated, Within, Touched;
    FirstLayer(x, n);
    var xs, k := Elements(x), Height(n);
    HeightSpans(n);
    GivenIsDoubled(x, n);
    CopathSeparated(n, k, 0, xs);
    SeparatedIncreasing(Copath(n, k, 0, xs));
    IncreasingIsSorted(Copath(n, k, 0, xs));
    DoubledIncreasing(x);
    IncreasingIsSorted(Doubled(x));
    MergeSorts(Doubled(x), Copath(n, k, 0, xs));
    MergeKeeps(Doubled(x), Copath(n, k, 0, xs));
    TilesSeparated(n, k, 0, BatchCut(xs));
    SeparatedIncreasing(Tiles(n, k, 0, BatchCut(xs)));
    IncreasingIsSorted(Tiles(n, k, 0, BatchCut(xs)));
    TilesAreGivenAndCopath(n, k, 0, xs);
    SortedUnique(Merge(Doubled(x), Copath(n, k, 0, xs)), Tiles(n, k, 0, BatchCut(xs)));
  }

  lemma GivenIsDoubled(x: seq<nat>, n: nat)
    requires LeafList(x, n) && n > 0 && Start(Height(n), 0) < n
    ensures Given(n, Height(n), 0, Elements(x)) == Doubled(x)
  {
    hide Start, Height, Given, Separated, Within, Increasing, Layer, CopathSum, Doubled;
    var xs, k := Elements(x), Height(n);
    FirstLayer(x, n);
    HeightSpans(n);
    GivenSeparated(n, k, 0, xs);
    SeparatedIncreasing(Given(n, k, 0, xs));
    DoubledIncreasing(x);
    forall y: nat ensures y in Given(n, k, 0, xs) <==> y in Doubled(x) {
      GivenElements(n, k, 0, xs, y);
      InDoubled(x, y);
      assert y / 2 in x ==> y / 2 in xs;
    }
    IncreasingSameElements(Given(n, k, 0, xs), Doubled(x));
  }

  lemma InDoubled(x: seq<nat>, y: nat)
    ensures y in Doubled(x) <==> y % 2 == 0 && y / 2 in x
  {
    if y % 2 == 0 && y / 2 in x {
      var i :| 0 <= i < |x| && x[i] == y / 2;
      assert Doubled(x)[i] == y;
    }
  }

  predicate Ascending(x: seq<nat>) {
    forall i :: 0 <= i < |x| - 1 ==> x[i] < x[i + 1]
  }

  lemma {:induction false} AscendingIsIncreasing(x: seq<nat>)
    requires Ascending(x)
    ensures Increasing(x)
  {
    if x != [] {
      var y := x[..|x| - 1];
      AscendingIsIncreasing(y);
      assert forall i :: 0 <= i < |y| ==> y[i] == x[i];
      assert |y| > 0 ==> y[|y| - 1] < x[|y|];
    }
  }

  lemma Listed(x: seq<nat>, n: nat)
    requires x != [] && Ascending(x) && x[|x| - 1] < n
    ensures LeafList(x, n)
  {
    AscendingIsIncreasing(x);
  }

  ghost function CopathIds(x: seq<nat>, n: nat): seq<nat>
    requires LeafList(x, n)
  {
    BatchTiles(x, n);
    Copath(n, Height(n), 0, Elements(x))
  }

  /** The root that makes a batch inclusion proof valid: the evaluation of the tiles given by the
      values and the proof. */
  ghost function BatchRoot<H>(h: TreeHash<H>, x: seq<nat>, n: nat, values: seq<H>, proof: seq<H>): Result<H, LogError> {
    if |x| != |values| || !Ascending(x) || x == [] || x[|x| - 1] >= n then Err(InvalidInput)
    else
      Listed(x, n);
      BatchTiles(x, n);
      if |proof| != |CopathIds(x, n)| then Err(MalformedProof)
      else
        var vs := MergeValues(Doubled(x), CopathIds(x, n), values, proof);
        Ok(Eval(h, n, Height(n), 0, BatchCut(Elements(x)), vs).value)
  }

  method EvaluateBatchProof<H>(h: TreeHash<H>, x: seq<nat>, n: nat, values: seq<H>, proof: seq<H>)
    returns (r: Result<H, LogError>)
    ensures r == BatchRoot(h, x, n, values, proof)
  {
    hide Start, Height, Level, Copath, Eval, Tiles, BatchCut;
    if |x| != |values| {
      return Err(InvalidInput);
    }
    if !Ascending(x) {
      return Err(InvalidInput);
    }
    if x == [] {
      return Err(InvalidInput);
    }
    if x[|x| - 1] >= n {
      return Err(InvalidInput);
    }
    Listed(x, n);
    BatchTiles(x, n);
    var copath := CopathOf(x, n);
    if |proof| != |copath| {
      return Err(MalformedProof);
    }
    var calculator := new SimpleRootCalculator<H>(h);
    InsertMerged(calculator, x, copath, values, proof);
    ghost var vs := MergeValues(Doubled(x), copath, values, proof);
    RunIsEval(h, n, BatchCut(Elements(x)), vs);
    r := calculator.Root();
  }

  lemma RunSnoc<H>(h: TreeHash<H>, c: Chain<H>, ids: seq<nat>, vs: seq<H>, id: nat, v: H)
    requires |ids| == |vs|
    ensures Run(h, c, ids + [id], vs + [v]) == InsertAt(h, Run(h, c, ids, vs), Level(id), v)
  {
    assert (ids + [id])[..|ids|] == ids && (vs + [v])[..|ids|] == vs;
  }

  /** What remains to be inserted after the first i leaves and j copath nodes. */
  ghost predicate Remaining<H>(a: seq<nat>, b: seq<nat>, va: seq<H>, vb: seq<H>, i: nat, j: nat, ids: seq<nat>,
                               vs: seq<H>)
    requires |a| == |va| && |b| == |vb| && i <= |a| && j <= |b|
  {
    && |ids| == |vs| && Merge(a, b) == ids + Merge(a[i..], b[j..])
    && MergeValues(a, b, va, vb) == vs + MergeValues(a[i..], b[j..], va[i..], vb[j..])
  }

  lemma RemainingStart<H>(a: seq<nat>, b: seq<nat>, va: seq<H>, vb: seq<H>)
    requires |a| == |va| && |b| == |vb|
    ensures Remaining(a, b, va, vb, 0, 0, [], [])
  {
    assert a[0..] == a && b[0..] == b && va[0..] == va && vb[0..] == vb;
  }

  lemma MergeTakesLeft<H>(a: seq<nat>, b: seq<nat>, va: seq<H>, vb: seq<H>)
    requires |a| == |va| && |b| == |vb| && a != [] && (b != [] ==> a[0] < b[0])
    ensures Merge(a, b) == [a[0]] + Merge(a[1..], b)
    ensures MergeValues(a, b, va, vb) == [va[0]] + MergeValues(a[1..], b, va[1..], vb)
  {
    hide Merge, MergeValues;
    if b == [] {
      assert vb == [];
      MergeNothing(a, va);
      MergeNothing(a[1..], va[1..]);
      HeadAndTail(a);
      HeadAndTail(va);
    } else {
      MergeSteps(a, b, va, vb);
    }
  }

  lemma MergeNothing<H>(a: seq<nat>, va: seq<H>)
    requires |a| == |va|
    ensures Merge(a, []) == a && MergeValues(a, [], va, []) == va
  {
  }

  lemma MergeTakesRight<H>(a: seq<nat>, b: seq<nat>, va: seq<H>, vb: seq<H>)
    requires |a| == |va| && |b| == |vb| && b != [] && (a != [] ==> b[0] <= a[0])
    ensures Merge(a, b) == [b[0]] + Merge(a, b[1..])
    ensures MergeValues(a, b, va, vb) == [vb[0]] + MergeValues(a, b[1..], va, vb[1..])
  {
    hide Merge, MergeValues;
    if a == [] {
      assert va == [];
      NothingMerged(b, vb);
      NothingMerged(b[1..], vb[1..]);
      HeadAndTail(b);
      HeadAndTail(vb);
    } else {
      MergeSteps(a, b, va, vb);
    }
  }

  lemma HeadAndTail<T>(s: seq<T>)
    requires s != []
    ensures s == [s[0]] + s[1..]
  {
  }

  lemma MergeSteps<H>(a: seq<nat>, b: seq<nat>, va: seq<H>, vb: seq<H>)
    requires |a| == |va| && |b| == |vb| && a != [] && b != []
    ensures a[0] < b[0] ==> Merge(a, b) == [a[0]] + Merge(a[1..], b)
    ensures a[0] < b[0] ==> MergeValues(a, b, va, vb) == [va[0]] + MergeValues(a[1..], b, va[1..], vb)
    ensures b[0] <= a[0] ==> Merge(a, b) == [b[0]] + Merge(a, b[1..])
    ensures b[0] <= a[0] ==> MergeValues(a, b, va, vb) == [vb[0]] + MergeValues(a, b[1..], va, vb[1..])
  {
  }

  lemma NothingMerged<H>(b: seq<nat>, vb: seq<H>)
    requires |b| == |vb|
    ensures Merge([], b) == b && MergeValues([], b, [], vb) == vb
  {
  }

  lemma TakeLeft<H>(a: seq<nat>, b: seq<nat>, va: seq<H>, vb: seq<H>, i: nat, j: nat, ids: seq<nat>, vs: seq<H>)
    requires |a| == |va| && |b| == |vb| && i < |a| && j <= |b| && Remaining(a, b, va, vb, i, j, ids, vs)
    requires j < |b| ==> a[i] < b[j]
    ensures Remaining(a, b, va, vb, i + 1, j, ids + [a[i]], vs + [va[i]])
  {
    hide Merge, MergeValues;
    MergeTakesLeft(a[i..], b[j..], va[i..], vb[j..]);
    assert a[i..][1..] == a[i + 1..] && va[i..][1..] == va[i + 1..];
  }

  lemma TakeRight<H>(a: seq<nat>, b: seq<nat>, va: seq<H>, vb: seq<H>, i: nat, j: nat, ids: seq<nat>, vs: seq<H>)
    requires |a| == |va| && |b| == |vb| && i <= |a| && j < |b| && Remaining(a, b, va, vb, i, j, ids, vs)
    requires i < |a| ==> b[j] <= a[i]
    ensures Remaining(a, b, va, vb, i, j + 1, ids + [b[j]], vs + [vb[j]])
  {
    hide Merge, MergeValues;
    MergeTakesRight(a[i..], b[j..], va[i..], vb[j..]);
    assert b[j..][1..] == b[j + 1..] && vb[j..][1..] == vb[j + 1..];
  }

  lemma LeafLevel(x: nat)
    ensures Level(2 * x) == 0
  {
  }

  /** Inserts leaves and copath nodes in the order of their ids. */
  method InsertMerged<H>(calculator: SimpleRootCalculator<H>, x: seq<nat>, copath: seq<nat>, values: seq<H>,
                         proof: seq<H>)
    requires |x| == |values| && |copath| == |proof|
    modifies calculator
    ensures calculator.chain ==
      Run(calculator.h, old(calculator.chain), Merge(Doubled(x), copath),
          MergeValues(Doubled(x), copath, values, proof))
  {
    hide Level, Merge, MergeValues, Remaining, Run;
    var i, j := 0, 0;
    ghost var h, start, a := calculator.h, calculator.chain, Doubled(x);
    ghost var ids: seq<nat>, vs: seq<H> := [], [];
    RemainingStart(a, copath, values, proof);
    RunNothing(h, start);
    while i < |x| && j < |copath|
      invariant 0 <= i <= |x| && 0 <= j <= |copath| && |ids| == |vs|
      invariant Remaining(a, copath, values, proof, i, j, ids, vs) && calculator.chain == Run(h, start, ids, vs)
    {
      if 2 * x[i] < copath[j] {
        TakeLeft(a, copath, values, proof, i, j, ids, vs);
        RunSnoc(h, start, ids, vs, a[i], values[i]);
        LeafLevel(x[i]);
        ids, vs := ids + [a[i]], vs + [values[i]];
        calculator.Insert(0, values[i]);
        i := i + 1;
      } else {
        TakeRight(a, copath, values, proof, i, j, ids, vs);
        RunSnoc(h, start, ids, vs, copath[j], proof[j]);
        ids, vs := ids + [copath[j]], vs + [proof[j]];
        calculator.Insert(Level(copath[j]), proof[j]);
        j := j + 1;
      }
    }
    while i < |x|
      invariant 0 <= i <= |x| && 0 <= j <= |copath| && (i < |x| ==> j == |copath|) && |ids| == |vs|
      invariant Remaining(a, copath, values, proof, i, j, ids, vs) && calculator.chain == Run(h, start, ids, vs)
    {
      TakeLeft(a, copath, values, proof, i, j, ids, vs);
      RunSnoc(h, start, ids, vs, a[i], values[i]);
      LeafLevel(x[i]);
      ids, vs := ids + [a[i]], vs + [values[i]];
      calculator.Insert(0, values[i]);
      i := i + 1;
    }
    while j < |copath|
      invariant i == |x| && 0 <= j <= |copath| && |ids| == |vs|
      invariant Remaining(a, copath, values, proof, i, j, ids, vs) && calculator.chain == Run(h, start, ids, vs)
    {
      TakeRight(a, copath, values, proof, i, j, ids, vs);
      RunSnoc(h, start, ids, vs, copath[j], proof[j]);
      ids, vs := ids + [copath[j]], vs + [proof[j]];
      calculator.Insert(Level(copath[j]), proof[j]);
      j := j + 1;
    }
    RemainingEnd(a, copath, values, proof, ids, vs);
  }

  lemma RunNothing<H>(h: TreeHash<H>, c: Chain<H>)
    ensures Run(h, c, [], []) == c
  {
  }

  lemma RemainingEnd<H>(a: seq<nat>, b: seq<nat>, va: seq<H>, vb: seq<H>, ids: seq<nat>, vs: seq<H>)
    requires |a| == |va| && |b| == |vb| && Remaining(a, b, va, vb, |a|, |b|, ids, vs)
    ensures ids == Merge(a, b) && vs == MergeValues(a, b, va, vb)
  {
  }

  // Exactness of batch inclusion proofs ------------------------------------------------------------

  lemma {:induction false} HashesMerge<H>(h: TreeHash<H>, log: seq<H>, a: seq<nat>, b: seq<nat>)
    requires AllInLog(|log|, a) && AllInLog(|log|, b)
    ensures AllInLog(|log|, Merge(a, b))
    ensures MergeValues(a, b, HashesAt(h, log, a), HashesAt(h, log, b)) == HashesAt(h, log, Merge(a, b))
    decreases |a| + |b|
  {
    hide InLog, HashAt;
    var va, vb := HashesAt(h, log, a), HashesAt(h, log, b);
    if a != [] && b != [] {
      if a[0] < b[0] {
        assert HashesAt(h, log, a[1..]) == va[1..];
        HashesMerge(h, log, a[1..], b);
      } else {
        assert HashesAt(h, log, b[1..]) == vb[1..];
        HashesMerge(h, log, a, b[1..]);
      }
    }
  }

  ghost function LeavesAt<H>(log: seq<H>, x: seq<nat>): (vs: seq<H>)
    requires forall i :: 0 <= i < |x| ==> x[i] < |log|
    ensures |vs| == |x| && forall i :: 0 <= i < |x| ==> vs[i] == log[x[i]]
  {
    seq(|x|, i requires 0 <= i < |x| => log[x[i]])
  }

  lemma LeafHashes<H>(h: TreeHash<H>, log: seq<H>, x: seq<nat>)
    requires forall i :: 0 <= i < |x| ==> x[i] < |log|
    ensures AllInLog(|log|, Doubled(x)) && HashesAt(h, log, Doubled(x)) == LeavesAt(log, x)
  {
    forall i | 0 <= i < |x| ensures InLog(|log|, 2 * x[i]) && HashAt(h, log, 2 * x[i]) == log[x[i]] {
      LevelOfId(0, x[i]);
    }
  }

  /** The log's own leaves and hashes evaluate to its root. */
  lemma BatchProofAccepts<H>(h: TreeHash<H>, log: seq<H>, x: seq<nat>)
    requires LeafList(x, |log|) && Ascending(x)
    ensures |log| > 0 && Start(Height(|log|), 0) < |log| && AllInLog(|log|, CopathIds(x, |log|))
    ensures var cp := CopathIds(x, |log|);
      && MergeValues(Doubled(x), cp, LeavesAt(log, x), HashesAt(h, log, cp))
         == TileHashes(h, log, Height(|log|), 0, BatchCut(Elements(x)))
      && BatchRoot(h, x, |log|, LeavesAt(log, x), HashesAt(h, log, cp)) == Ok(LogRoot(h, log))
  {
    hide Start, Height, Level, Eval, Tiles, Copath, Merge, MergeValues, InLog, HashAt, TileHashes, Block;
    assert x[0] < |log|;
    var n, cut := |log|, BatchCut(Elements(x));
    BatchTiles(x, n);
    TileHashesAt(h, log, Height(n), 0, cut);
    LeafHashes(h, log, x);
    MergedInLog(n, Doubled(x), CopathIds(x, n));
    HashesMerge(h, log, Doubled(x), CopathIds(x, n));
    EvalOfHashes(h, log, Height(n), 0, cut);
    TopBlock(h, log);
  }

  /** Evaluating the proof and hashing the log exhibit a collision. */
  ghost predicate BatchClash<H>(h: TreeHash<H>, log: seq<H>, x: seq<nat>, values: seq<H>, proof: seq<H>)
    requires LeafList(x, |log|)
  {
    BatchTiles(x, |log|);
    && |x| == |values| && |proof| == |CopathIds(x, |log|)|
    && ClashBelow(h, log, Height(|log|), 0, BatchCut(Elements(x)),
                  MergeValues(Doubled(x), CopathIds(x, |log|), values, proof))
  }

  /** Collision-free hash functions never clash. */
  lemma NoBatchClash<H(!new)>(h: TreeHash<H>, log: seq<H>, x: seq<nat>, values: seq<H>, proof: seq<H>)
    requires CollisionFree(h) && LeafList(x, |log|)
    ensures !BatchClash(h, log, x, values, proof)
  {
    hide Start, Height, ClashBelow, Tiles, Copath, Merge, MergeValues, CollisionFree;
    BatchTiles(x, |log|);
    if |x| == |values| && |proof| == |CopathIds(x, |log|)| {
      var vs := MergeValues(Doubled(x), CopathIds(x, |log|), values, proof);
      NoClash(h, log, Height(|log|), 0, BatchCut(Elements(x)), vs);
    }
  }

  /** Exactness of batch inclusion proofs: against a log, a well-formed proof evaluates to the log's
      root iff every value is the log's leaf at its index and the proof is the log's hashes at the
      copath. */
  lemma BatchProofIsExact<H>(h: TreeHash<H>, log: seq<H>, x: seq<nat>, values: seq<H>, proof: seq<H>)
    requires LeafList(x, |log|) && Ascending(x) && !BatchClash(h, log, x, values, proof)
    ensures |log| > 0 && AllInLog(|log|, CopathIds(x, |log|))
    ensures BatchRoot(h, x, |log|, values, proof) == Ok(LogRoot(h, log)) <==>
            values == LeavesAt(log, x) && proof == HashesAt(h, log, CopathIds(x, |log|))
  {
    hide Start, Height, Level, Eval, Tiles, Copath, Merge, MergeValues, ClashBelow, LogRoot, InLog, HashAt, TileHashes;
    assert x[0] < |log|;
    var n, cut := |log|, BatchCut(Elements(x));
    var a, cp := Doubled(x), CopathIds(x, n);
    BatchTiles(x, n);
    BatchProofAccepts(h, log, x);
    if |x| == |values| && |proof| == |cp| {
      var vs := MergeValues(a, cp, values, proof);
      EvalIsExact(h, log, cut, vs);
      if vs == MergeValues(a, cp, LeavesAt(log, x), HashesAt(h, log, cp)) {
        MergeValuesInjective(a, cp, values, proof, LeavesAt(log, x), HashesAt(h, log, cp));
      }
    }
  }

  lemma MergedInLog(n: nat, a: seq<nat>, b: seq<nat>)
    requires AllInLog(n, Merge(a, b))
    ensures AllInLog(n, b)
  {
    hide InLog, Merge;
    MergeKeeps(a, b);
    var m := Merge(a, b);
    forall i | 0 <= i < |b| ensures InLog(n, b[i]) {
      assert b[i] in multiset(m);
    }
  }
}
