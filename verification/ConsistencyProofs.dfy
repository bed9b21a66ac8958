/** Verification of consistency proofs between two sizes of a log (log.rs, `verify_consistency_proof`). */
module ConsistencyProofs {
  import opened Wrappers
  import opened LeftBalanced
  import opened Merkle
  import opened LogMath
  import opened ConsistencyIds
  import opened RootCalculator
  import opened LogProofs

  /** The full subtrees of the first m leaves. */
  ghost function OldIds(m: nat): seq<nat>
    requires m > 0
  {
    HeightSpans(m);
    Tiles(m, Height(m), 0, FullCut(m))
  }

  /** The tiles of n leaves cut at m. */
  ghost function NewIds(m: nat, n: nat): seq<nat>
    requires n > 0
  {
    HeightSpans(n);
    Tiles(n, Height(n), 0, SizeCut(m))
  }

  ghost function OldRoot<H>(h: TreeHash<H>, m: nat, vs: seq<H>): H
    requires m > 0 && |vs| == |OldIds(m)|
  {
    HeightSpans(m);
    Eval(h, m, Height(m), 0, FullCut(m), vs).value
  }

  ghost function NewRoot<H>(h: TreeHash<H>, m: nat, n: nat, vs: seq<H>): H
    requires n > 0 && |vs| == |NewIds(m, n)|
  {
    HeightSpans(n);
    Eval(h, n, Height(n), 0, SizeCut(m), vs).value
  }

  /** The hashes for all tiles of the new size: for a power of two, the old root is the first. */
  ghost function AllHashes<H>(m: nat, n: nat, proof: seq<H>, mRoot: H): (vs: seq<H>)
    requires 0 < m < n && |proof| == |SubIds(m, n, true)|
    ensures |vs| == |NewIds(m, n)|
  {
    ProofIds(m, n);
    (if |OldIds(m)| == 1 then [mRoot] else []) + proof
  }

  /** What verification decides, stated on trees: the full subtrees of the old size evaluate to the
      old root, and all tiles of the new size to the new root. */
  ghost function Verdict<H>(h: TreeHash<H>, m: nat, n: nat, proof: seq<H>, mRoot: H, nRoot: H): Result<(), LogError> {
    if m == 0 || m >= n then Err(InvalidInput)
    else if |proof| != |SubIds(m, n, true)| then Err(MalformedProof)
    else
      ProofIds(m, n);
      var vs := AllHashes(m, n, proof, mRoot);
      if |OldIds(m)| != 1 && OldRoot(h, m, proof[..|OldIds(m)|]) != mRoot then Err(ProofMismatch)
      else if NewRoot(h, m, n, vs) != nRoot then Err(ProofMismatch)
      else Ok(())
  }

  lemma RunIsOldRoot<H>(h: TreeHash<H>, m: nat, vs: seq<H>)
    requires m > 0 && |vs| == |OldIds(m)|
    ensures RootOf(h, Run(h, [], OldIds(m), vs)) == Ok(OldRoot(h, m, vs))
  {
    hide Start, Height, Eval, Tiles, Run, RootOf;
    HeightSpans(m);
    RunIsEval(h, m, FullCut(m), vs);
  }

  lemma RunIsNewRoot<H>(h: TreeHash<H>, m: nat, n: nat, vs: seq<H>)
    requires n > 0 && |vs| == |NewIds(m, n)|
    ensures RootOf(h, Run(h, [], NewIds(m, n), vs)) == Ok(NewRoot(h, m, n, vs))
  {
    hide Start, Height, Eval, Tiles, Run, RootOf;
    HeightSpans(n);
    RunIsEval(h, n, SizeCut(m), vs);
  }

  /** The ids of the proof, in terms of old and new tiles. */
  lemma IdsOfProof(m: nat, n: nat)
    requires 0 < m < n
    ensures OldIds(m) <= NewIds(m, n)
    ensures |OldIds(m)| == 1 ==> OldIds(m) == [Root(m)] && NewIds(m, n) == [Root(m)] + SubIds(m, n, true)
    ensures |OldIds(m)| != 1 ==> NewIds(m, n) == SubIds(m, n, true)
  {
    hide Start, Height, Tiles, SubIds;
    ProofIds(m, n);
    assert [] + SubIds(m, n, true) == SubIds(m, n, true);
  }

  method VerifyConsistencyProof<H(==)>(h: TreeHash<H>, m: nat, n: nat, proof: seq<H>, mRoot: H, nRoot: H)
    returns (r: Result<(), LogError>)
    ensures r == Verdict(h, m, n, proof, mRoot, nRoot)
  {
    hide Start, Height, Tiles, SubIds, OldIds, NewIds, OldRoot, NewRoot, Run, RootOf, Root, NodeWidth, Level;
    if m == 0 || m >= n {
      return Err(InvalidInput);
    }
    var ids := ConsistencyProof(m, n);
    if |proof| != |ids| {
      return Err(MalformedProof);
    }
    IdsOfProof(m, n);
    var calculator := new SimpleRootCalculator<H>(h);
    var path := OldPath(m);
    var i := 0;
    RunNothing(h, calculator.chain);
    if |path| == 1 {
      RunSnoc(h, [], [], [], Root(m), mRoot);
      assert [] + [Root(m)] == [Root(m)] && [] + [mRoot] == [mRoot];
      calculator.Insert(Level(Root(m)), mRoot);
    } else {
      while i < |path|
        invariant 0 <= i <= |path| && calculator.h == h && calculator.chain == Run(h, [], ids[..i], proof[..i])
      {
        if ids[i] != path[i] {
          return Err(Unexpected);
        }
        RunSnoc(h, [], ids[..i], proof[..i], ids[i], proof[i]);
        assert ids[..i + 1] == ids[..i] + [ids[i]] && proof[..i + 1] == proof[..i] + [proof[i]];
        calculator.Insert(Level(path[i]), proof[i]);
        i := i + 1;
      }
      assert ids[..i] == path;
      RunIsOldRoot(h, m, proof[..i]);
      var oldRoot := calculator.Root();
      match oldRoot {
        case Err(e) => return Err(e);
        case Ok(value) =>
          if mRoot != value {
            return Err(ProofMismatch);
          }
      }
    }
    ghost var given := AllHashes(m, n, proof, mRoot);
    InsertFrom(calculator, ids, proof, i);
    if |path| == 1 {
      RunAppends(h, [], [Root(m)], ids, [mRoot], proof);
      assert ids[0..] == ids && proof[0..] == proof;
    } else {
      RunAppends(h, [], ids[..i], ids[i..], proof[..i], proof[i..]);
      assert ids[..i] + ids[i..] == ids && proof[..i] + proof[i..] == proof;
      assert given == proof;
    }
    assert calculator.chain == Run(h, [], NewIds(m, n), given);
    RunIsNewRoot(h, m, n, given);
    var root := calculator.Root();
    match root {
      case Ok(value) => return if value == nRoot then Ok(()) else Err(ProofMismatch);
      case Err(e) => return Err(e);
    }
  }

  method InsertFrom<H>(calculator: SimpleRootCalculator<H>, ids: seq<nat>, proof: seq<H>, i: nat)
    requires |ids| == |proof| && i <= |ids|
    modifies calculator
    ensures calculator.chain == Run(calculator.h, old(calculator.chain), ids[i..], proof[i..])
  {
    hide Level, Run;
    ghost var h, start := calculator.h, calculator.chain;
    RunNothing(h, start);
    assert ids[i..i] == [] && proof[i..i] == [];
    for j := i to |ids|
      invariant calculator.chain == Run(h, start, ids[i..j], proof[i..j])
    {
      RunSnoc(h, start, ids[i..j], proof[i..j], ids[j], proof[j]);
      assert ids[i..j + 1] == ids[i..j] + [ids[j]] && proof[i..j + 1] == proof[i..j] + [proof[j]];
      calculator.Insert(Level(ids[j]), proof[j]);
    }
    assert ids[i..|ids|] == ids[i..] && proof[i..|ids|] == proof[i..];
  }

  method OldPath(m: nat) returns (path: seq<nat>)
    requires m > 0
    ensures path == OldIds(m)
  {
    hide Start, Height, Tiles, Root, NodeWidth, Level, Index, Id;
    RootIsTop(m);
    LevelOfId(Height(m), 0);
    NodeIds(m, Height(m), 0);
    path := FullSubtrees(Root(m), m);
  }

  // Exactness ------------------------------------------------------------------------------

  /** The old tiles have the same hashes in the prefix as in the whole log. */
  lemma {:induction false} OldHashesStable<H>(h: TreeHash<H>, log: seq<H>, m: nat, k: nat, j: nat)
    requires m <= |log| && Start(k, j) < m
    ensures AllInLog(|log|, Tiles(m, k, j, FullCut(m)))
    ensures TileHashes(h, log[..m], k, j, FullCut(m)) == HashesAt(h, log, Tiles(m, k, j, FullCut(m)))
    decreases k
  {
    hide Start, Id, Canon, InLog, HashAt, Block, Tiles, TileHashes;
    if Start(k, j + 1) <= m {
      FullBlockHash(h, log, m, k, j);
      SingleTile(h, log[..m], k, j, FullCut(m));
    } else if k == 0 {
      LeafIds(j);
      LeafIds(j + 1);
    } else {
      HalvesOf(m, k, j);
      TilesFork(m, k, j, FullCut(m));
      TileHashesFork(h, log[..m], k, j, FullCut(m));
      OldHashesStable(h, log, m, k - 1, 2 * j);
      if Start(k - 1, 2 * j + 1) < m {
        OldHashesStable(h, log, m, k - 1, 2 * j + 1);
        HashesConcat(h, log, Tiles(m, k - 1, 2 * j, FullCut(m)), Tiles(m, k - 1, 2 * j + 1, FullCut(m)));
      }
    }
  }

  lemma FullBlockHash<H>(h: TreeHash<H>, log: seq<H>, m: nat, k: nat, j: nat)
    requires m <= |log| && Start(k, j) < m && Start(k, j + 1) <= m
    ensures var x := Canon(m, k, j);
      InLog(|log|, x) && HashAt(h, log, x) == Block(h, log[..m], k, j).value
  {
    hide Start, Id, Level, Index, Block;
    FullBlockIsStable(h, log, m, k, j);
    if k > 0 {
      InnerStart(k, j);
    }
    LevelOfId(k, j);
  }

  /** Evaluating the hashes for the full subtrees and hashing the prefix exhibit a collision. */
  ghost predicate OldClash<H>(h: TreeHash<H>, log: seq<H>, m: nat, vs: seq<H>)
    requires 0 < m <= |log| && |vs| == |OldIds(m)|
  {
    HeightSpans(m);
    ClashBelow(h, log[..m], Height(m), 0, FullCut(m), vs)
  }

  /** Evaluating the hashes for the tiles and hashing the log exhibit a collision. */
  ghost predicate NewClash<H>(h: TreeHash<H>, log: seq<H>, m: nat, vs: seq<H>)
    requires log != [] && |vs| == |NewIds(m, |log|)|
  {
    HeightSpans(|log|);
    ClashBelow(h, log, Height(|log|), 0, SizeCut(m), vs)
  }

  /** One of the two evaluations of a consistency proof exhibits a collision with the log. */
  ghost predicate ConsistencyClash<H>(h: TreeHash<H>, log: seq<H>, m: nat, proof: seq<H>, mRoot: H) {
    && 0 < m < |log| && |proof| == |SubIds(m, |log|, true)|
    && (IdsOfProof(m, |log|);
        || NewClash(h, log, m, AllHashes(m, |log|, proof, mRoot))
        || (|OldIds(m)| != 1 && OldClash(h, log, m, proof[..|OldIds(m)|])))
  }

  /** Collision-free hash functions never clash. */
  lemma NoConsistencyClash<H(!new)>(h: TreeHash<H>, log: seq<H>, m: nat, proof: seq<H>, mRoot: H)
    requires CollisionFree(h)
    ensures !ConsistencyClash(h, log, m, proof, mRoot)
  {
    hide Start, Height, ClashBelow, Tiles, SubIds, CollisionFree;
    if 0 < m < |log| && |proof| == |SubIds(m, |log|, true)| {
      IdsOfProof(m, |log|);
      NoEvalClash(h, log, SizeCut(m), AllHashes(m, |log|, proof, mRoot));
      if |OldIds(m)| != 1 {
        NoEvalClash(h, log[..m], FullCut(m), proof[..|OldIds(m)|]);
      }
    }
  }

  lemma NoEvalClash<H(!new)>(h: TreeHash<H>, log: seq<H>, cut: Cut, vs: seq<H>)
    requires CollisionFree(h) && log != []
    ensures Start(Height(|log|), 0) < |log|
    ensures |vs| == |Tiles(|log|, Height(|log|), 0, cut)| ==> !ClashBelow(h, log, Height(|log|), 0, cut, vs)
  {
    hide Start, Height, ClashBelow, Tiles, CollisionFree;
    HeightSpans(|log|);
    if |vs| == |Tiles(|log|, Height(|log|), 0, cut)| {
      NoClash(h, log, Height(|log|), 0, cut, vs);
    }
  }

  lemma OldRootExact<H>(h: TreeHash<H>, log: seq<H>, m: nat, vs: seq<H>)
    requires 0 < m <= |log| && |vs| == |OldIds(m)| && !OldClash(h, log, m, vs)
    ensures AllInLog(|log|, OldIds(m))
    ensures OldRoot(h, m, vs) == LogRoot(h, log[..m]) <==> vs == HashesAt(h, log, OldIds(m))
  {
    hide Start, Height, Tiles, Eval, TileHashes, LogRoot, ClashBelow, InLog, HashAt;
    HeightSpans(m);
    EvalIsExact(h, log[..m], FullCut(m), vs);
    OldHashesStable(h, log, m, Height(m), 0);
  }

  lemma NewRootExact<H>(h: TreeHash<H>, log: seq<H>, m: nat, vs: seq<H>)
    requires log != [] && |vs| == |NewIds(m, |log|)| && !NewClash(h, log, m, vs)
    ensures AllInLog(|log|, NewIds(m, |log|))
    ensures NewRoot(h, m, |log|, vs) == LogRoot(h, log) <==> vs == HashesAt(h, log, NewIds(m, |log|))
  {
    hide Start, Height, Tiles, Eval, TileHashes, LogRoot, ClashBelow, InLog, HashAt;
    HeightSpans(|log|);
    EvalIsExact(h, log, SizeCut(m), vs);
    TileHashesAt(h, log, Height(|log|), 0, SizeCut(m));
  }

  /** A full old tree is a single tile, whose hash is the old root. */
  lemma SingleOldRoot<H>(h: TreeHash<H>, log: seq<H>, m: nat)
    requires 0 < m <= |log| && OldIds(m) == [Root(m)] && AllInLog(|log|, [Root(m)])
    ensures HashesAt(h, log, [Root(m)]) == [LogRoot(h, log[..m])]
  {
    hide Start, Height, Tiles, Root, InLog, HashAt, Canon;
    HeightSpans(m);
    OldHashesStable(h, log, m, Height(m), 0);
    EvalOfHashes(h, log[..m], Height(m), 0, FullCut(m));
    TopBlock(h, log[..m]);
    SingleEval(h, m, TileHashes(h, log[..m], Height(m), 0, FullCut(m)));
  }

  lemma SingleEval<H>(h: TreeHash<H>, m: nat, vs: seq<H>)
    requires m > 0 && |OldIds(m)| == 1 == |vs| && Start(Height(m), 0) < m
    ensures Eval(h, m, Height(m), 0, FullCut(m), vs).value == vs[0]
  {
    hide Start, Height, Level, Canon;
    HeightSpans(m);
    FullCount(m);
    PowerIsFull(m);
  }

  lemma PowerIsFull(m: nat)
    requires m > 0 && IsPowerOfTwo(m)
    ensures Start(Height(m), 1) <= m
  {
    hide Height;
    StartIsPow2(Height(m));
  }

  /** Exactness of consistency proofs: against a log with the new root, verification accepts iff the old
      root is the root of the prefix and the proof is the log's hashes at the proof's ids. */
  lemma ConsistencyIsExact<H>(h: TreeHash<H>, log: seq<H>, m: nat, proof: seq<H>, mRoot: H)
    requires 0 < m < |log| && !ConsistencyClash(h, log, m, proof, mRoot)
    ensures AllInLog(|log|, SubIds(m, |log|, true))
    ensures Verdict(h, m, |log|, proof, mRoot, LogRoot(h, log)).Ok? <==>
            mRoot == LogRoot(h, log[..m]) && proof == HashesAt(h, log, SubIds(m, |log|, true))
  {
    hide Start, Height, Tiles, OldIds, NewIds, OldRoot, NewRoot, SubIds, LogRoot, OldClash, NewClash, InLog, HashAt,
         Root;
    var n := |log|;
    var ids, oldIds := SubIds(m, n, true), OldIds(m);
    IdsOfProof(m, n);
    AnyHashes(h, log, m);
    if |proof| == |ids| {
      var vs := AllHashes(m, n, proof, mRoot);
      NewRootExact(h, log, m, vs);
      if |oldIds| == 1 {
        SingleOldRoot(h, log, m);
        assert HashesAt(h, log, [Root(m)] + ids) == HashesAt(h, log, [Root(m)]) + HashesAt(h, log, ids);
        assert vs == [mRoot] + proof;
        ConsEqual(mRoot, proof, LogRoot(h, log[..m]), HashesAt(h, log, ids));
      } else {
        assert vs == proof;
        OldRootExact(h, log, m, proof[..|oldIds|]);
        assert HashesAt(h, log, ids)[..|oldIds|] == HashesAt(h, log, oldIds);
      }
    }
  }

  lemma ConsEqual<H>(a: H, s: seq<H>, b: H, t: seq<H>)
    ensures [a] + s == [b] + t <==> a == b && s == t
  {
    if [a] + s == [b] + t {
      assert ([a] + s)[0] == ([b] + t)[0];
      assert s == ([a] + s)[1..] == ([b] + t)[1..] == t;
    }
  }

  lemma AnyHashes<H>(h: TreeHash<H>, log: seq<H>, m: nat)
    requires 0 < m < |log|
    ensures AllInLog(|log|, NewIds(m, |log|)) && AllInLog(|log|, SubIds(m, |log|, true)) && AllInLog(|log|, OldIds(m))
    ensures |OldIds(m)| == 1 ==> AllInLog(|log|, [Root(m)])
  {
    hide Start, Height, Tiles, TileHashes, InLog, HashAt, SubIds, Root;
    var n := |log|;
    HeightSpans(n);
    HeightSpans(m);
    TileHashesAt(h, log, Height(n), 0, SizeCut(m));
    OldHashesStable(h, log, m, Height(m), 0);
    IdsOfProof(m, n);
    var all, ids := NewIds(m, n), SubIds(m, n, true);
    forall i | 0 <= i < |ids| ensures InLog(n, ids[i]) {
      assert ids[i] == all[i + |all| - |ids|];
    }
  }

  // Completeness ---------------------------------------------------------------------------

  lemma OwnNewRoot<H>(h: TreeHash<H>, log: seq<H>, m: nat)
    requires 0 < m < |log|
    ensures AllInLog(|log|, NewIds(m, |log|))
    ensures NewRoot(h, m, |log|, HashesAt(h, log, NewIds(m, |log|))) == LogRoot(h, log)
  {
    hide Start, Height, Tiles, Eval, TileHashes, InLog, HashAt, Block, TreeOf;
    HeightSpans(|log|);
    EvalOfHashes(h, log, Height(|log|), 0, SizeCut(m));
    TileHashesAt(h, log, Height(|log|), 0, SizeCut(m));
    TopBlock(h, log);
  }

  lemma OwnOldRoot<H>(h: TreeHash<H>, log: seq<H>, m: nat)
    requires 0 < m < |log|
    ensures AllInLog(|log|, OldIds(m))
    ensures OldRoot(h, m, HashesAt(h, log, OldIds(m))) == LogRoot(h, log[..m])
  {
    hide Start, Height, Tiles, Eval, TileHashes, InLog, HashAt, Block, TreeOf;
    HeightSpans(m);
    EvalOfHashes(h, log[..m], Height(m), 0, FullCut(m));
    OldHashesStable(h, log, m, Height(m), 0);
    TopBlock(h, log[..m]);
  }

  /** Completeness of consistency proofs: the log's own hashes at the proof's ids are accepted between the
      roots of a prefix and of the log, whatever the hash functions. */
  lemma ConsistencyAccepts<H>(h: TreeHash<H>, log: seq<H>, m: nat)
    requires 0 < m < |log|
    ensures AllInLog(|log|, SubIds(m, |log|, true))
    ensures Verdict(h, m, |log|, HashesAt(h, log, SubIds(m, |log|, true)), LogRoot(h, log[..m]), LogRoot(h, log)).Ok?
  {
    hide Start, Height, Tiles, OldIds, NewIds, OldRoot, NewRoot, SubIds, LogRoot, InLog, HashAt, Root;
    var n := |log|;
    var ids, oldIds := SubIds(m, n, true), OldIds(m);
    IdsOfProof(m, n);
    AnyHashes(h, log, m);
    OwnNewRoot(h, log, m);
    OwnOldRoot(h, log, m);
    var proof, mRoot := HashesAt(h, log, ids), LogRoot(h, log[..m]);
    if |oldIds| == 1 {
      SingleOldRoot(h, log, m);
      assert HashesAt(h, log, [Root(m)] + ids) == HashesAt(h, log, [Root(m)]) + proof;
      assert AllHashes(m, n, proof, mRoot) == [mRoot] + proof;
    } else {
      assert proof[..|oldIds|] == HashesAt(h, log, oldIds);
      assert AllHashes(m, n, proof, mRoot) == proof;
    }
  }
}
