/** Evaluation of a search proof against a candidate tree size (verify.rs, `verify_search_internal`). */
module Search {
  import opened Wrappers
  import opened Bits
  import opened LeftBalanced
  import opened Sequences
  import opened Merkle
  import opened BatchCopath
  import opened LogProofs
  import opened ImplicitTree
  import opened Guide
  import opened Prefix
  import opened PrefixTree

  datatype ProofStep<+H> = ProofStep(prefix: Option<PrefixProof<H>>, commitment: Bytes<H>)

  datatype SearchProof<+H> = SearchProof(pos: nat, steps: seq<ProofStep<H>>, inclusion: seq<Bytes<H>>)

  /** `NoReturn` stands for calls that panic or never end. */
  datatype Error = RequiredFieldMissing | BadData | VerificationFailed | NoReturn

  /** The hash functions of the log: Log Tree nodes, log leaves (prefix root and commitment), Prefix Tree. */
  datatype Hashes<!H> = Hashes(tree: TreeHash<H>, leaf: (H, H) -> H, prefix: PrefixHash<H>)

  ghost predicate AllCollisionFree<H(!new)>(hs: Hashes<H>) {
    && CollisionFree(hs.tree) && BothCollisionFree(hs.prefix)
    && forall a, b, c, d :: hs.leaf(a, b) == hs.leaf(c, d) ==> a == c && b == d
  }

  type Index = k: seq<nat> | |k| == 32 witness seq(32, i => 0)

  /** The log leaf that a proof step claims, with the step's counter. */
  function StepLeaf<H>(hs: Hashes<H>, index: Index, pos: nat, step: ProofStep<H>): (r: Result<(nat, H), Error>)
    ensures r != Err(NoReturn)
  {
    match step.prefix
    case None => Err(RequiredFieldMissing)
    case Some(proof) =>
      match (Opens(hs.prefix, index, pos, proof), step.commitment)
      case (Ok(root), Hash(commitment)) => Ok((proof.counter, hs.leaf(root, commitment)))
      case _ => Err(VerificationFailed)
  }

  /** Evaluates a step: the prefix proof, then the leaf. */
  method EvaluateStep<H>(hs: Hashes<H>, index: Index, pos: nat, step: ProofStep<H>)
    returns (r: Result<(nat, H), Error>)
    ensures r == StepLeaf(hs, index, pos, step)
  {
    hide Opens;
    match step.prefix {
      case None => return Err(RequiredFieldMissing);
      case Some(proof) =>
        var root := Evaluate(hs.prefix, index, pos, proof);
        match (root, step.commitment) {
          case (Ok(value), Hash(commitment)) => return Ok((proof.counter, hs.leaf(value, commitment)));
          case _ => return Err(VerificationFailed);
        }
    }
  }

  function HashList<H>(proof: seq<Bytes<H>>): (r: Result<seq<H>, Error>)
    ensures r.Ok? <==> forall i :: 0 <= i < |proof| ==> proof[i].Hash?
    ensures r.Ok? ==> |r.value| == |proof| && forall i :: 0 <= i < |proof| ==> proof[i] == Hash(r.value[i])
    ensures r.Err? ==> r.error == BadData
  {
    if forall i :: 0 <= i < |proof| ==> proof[i].Hash?
    then Ok(seq(|proof|, i requires 0 <= i < |proof| && proof[i].Hash? => proof[i].value))
    else Err(BadData)
  }

  /** The entries of a map, in the order of their keys. */
  ghost predicate PairsOf<H>(m: map<nat, H>, ids: seq<nat>, values: seq<H>) {
    && Increasing(ids) && |values| == |ids| && (forall x :: x in ids <==> x in m)
    && forall i :: 0 <= i < |ids| ==> ids[i] in m && values[i] == m[ids[i]]
  }

  method IntoSortedPairs<H>(m: map<nat, H>) returns (ids: seq<nat>, values: seq<H>)
    ensures PairsOf(m, ids, values)
  {
    ids, values := [], [];
    var rest := m.Keys;
    while rest != {}
      invariant rest <= m.Keys && |values| == |ids| && Increasing(ids)
      invariant forall x :: x in ids <==> x in m && x !in rest
      invariant forall i, x :: 0 <= i < |ids| && x in rest ==> ids[i] < x
      invariant forall i :: 0 <= i < |ids| ==> ids[i] in m && values[i] == m[ids[i]]
      decreases |rest|
    {
      var x := Least(rest);
      ids, values := ids + [x], values + [m[x]];
      rest := rest - {x};
    }
  }

  /** Every finite map has its entries in order. */
  lemma {:induction false} SomePairs<H>(m: map<nat, H>) returns (ids: seq<nat>, values: seq<H>)
    ensures PairsOf(m, ids, values)
    decreases |m|
  {
    if m == map[] {
      ids, values := [], [];
    } else {
      var x := Greatest(m.Keys);
      var ids0, values0 := SomePairs(m - {x});
      assert forall i :: 0 <= i < |ids0| ==> ids0[i] in ids0;
      ids, values := ids0 + [x], values0 + [m[x]];
    }
  }

  lemma {:induction false} Greatest(s: set<nat>) returns (x: nat)
    requires s != {}
    ensures x in s && forall y :: y in s ==> y <= x
    decreases |s|
  {
    var y :| y in s;
    if s == {y} {
      x := y;
    } else {
      var rest := s - {y};
      assert s == rest + {y};
      var z := Greatest(rest);
      x := if z < y then y else z;
    }
  }

  method Least(s: set<nat>) returns (x: nat)
    requires s != {}
    ensures x in s && forall y :: y in s ==> x <= y
  {
    x :| x in s;
    var rest := s - {x};
    while rest != {}
      invariant x in s && rest <= s && forall y :: y in s && y !in rest ==> x <= y
      decreases |rest|
    {
      var y :| y in rest;
      rest := rest - {y};
      if y < x {
        x := y;
      }
    }
  }

  datatype Outcome<+H> = Outcome(root: H, index: nat, id: nat)

  /** The steps whose leaf has been recorded: f lists the ids and counters of the first steps. */
  ghost predicate Recorded<H>(hs: Hashes<H>, index: Index, proof: SearchProof<H>, f: seq<VersionedId>,
                              leaves: map<nat, H>) {
    && |f| <= |proof.steps|
    && (forall i :: 0 <= i < |f| ==>
         && f[i].id in leaves
         && StepLeaf(hs, index, proof.pos, proof.steps[i]) == Ok((f[i].version, leaves[f[i].id])))
    && (forall x :: x in leaves ==> exists i :: 0 <= i < |f| && f[i].id == x)
  }

  /** The steps taken so far, by position. */
  ghost predicate Taken<H>(proof: SearchProof<H>, f: seq<VersionedId>, steps: map<nat, ProofStep<H>>) {
    && |f| <= |proof.steps|
    && (forall i :: 0 <= i < |f| ==> f[i].id in steps && steps[f[i].id] == proof.steps[i])
    && (forall x :: x in steps ==> exists i :: 0 <= i < |f| && f[i].id == x)
  }

  /** What an accepted search has established: the steps record leaves at the positions f, these and
      the inclusion proof make up the root, and the counters settle the search. */
  ghost predicate Certified<H>(hs: Hashes<H>, index: Index, wanted: Option<nat>, n: nat, proof: SearchProof<H>,
                               o: Outcome<H>,
                               f: seq<VersionedId>, t: nat, leaves: map<nat, H>, ids: seq<nat>, values: seq<H>) {
    && proof.pos < n && Recorded(hs, index, proof, f, leaves) && |f| == |proof.steps|
    && (forall i :: 0 <= i < |f| ==> proof.pos <= f[i].id < n)
    && (wanted.Some? ==> t == wanted.value) && (wanted.None? ==> VersionedId(n - 1, t) in f)
    && Settles(f, t, proof.pos, n, Some((o.index, o.id)))
    && PairsOf(leaves, ids, values) && HashList(proof.inclusion).Ok?
    && BatchRoot(hs.tree, ids, n, values, HashList(proof.inclusion).value) == Ok(o.root)
  }

  /** Steps that answer, for counters v, exactly the questions the search asks. */
  ghost predicate Answers<H>(hs: Hashes<H>, index: Index, wanted: Option<nat>, n: nat, proof: SearchProof<H>,
                             v: nat -> nat) {
    && proof.pos < n && Nondecreasing(v, proof.pos, n)
    && |proof.steps| == |AskedIds(v, wanted, proof.pos, n)|
    && forall i :: 0 <= i < |proof.steps| ==>
         && StepLeaf(hs, index, proof.pos, proof.steps[i]).Ok?
         && StepLeaf(hs, index, proof.pos, proof.steps[i]).value.0 == v(AskedIds(v, wanted, proof.pos, n)[i])
  }

  /** Everything v would be asked has been asked and answered. */
  ghost predicate Answered<H>(wanted: Option<nat>, n: nat, proof: SearchProof<H>, v: nat -> nat, f: seq<VersionedId>,
                              t: nat)
    requires proof.pos < n
  {
    && Agrees(v, f) && |f| == |proof.steps| && t == Target(v, wanted, n)
    && |f| == |AskedIds(v, wanted, proof.pos, n)|
    && forall i :: 0 <= i < |f| ==> f[i].id == AskedIds(v, wanted, proof.pos, n)[i]
  }

  lemma AnsweredAtEnd<H>(hs: Hashes<H>, index: Index, wanted: Option<nat>, n: nat, proof: SearchProof<H>, v: nat -> nat,
                         f: seq<VersionedId>, ids: seq<nat>, t: nat)
    requires Answers(hs, index, wanted, n, proof, v) && Agrees(v, f) && Fetched(f, ids) && |f| == |ids|
    requires OnTrackToEnd(v, wanted, proof.pos, n, f, ids, t)
    ensures Answered(wanted, n, proof, v, f, t)
  {
    hide StepLeaf, AskedIds, Nondecreasing;
  }

  lemma AnsweredStep<H>(hs: Hashes<H>, index: Index, wanted: Option<nat>, n: nat, proof: SearchProof<H>, v: nat -> nat,
                        f: seq<VersionedId>, ids: seq<nat>)
    requires Answers(hs, index, wanted, n, proof, v) && Agrees(v, f) && |f| < |ids|
    requires ids <= AskedIds(v, wanted, proof.pos, n)
    ensures |f| < |proof.steps| && StepLeaf(hs, index, proof.pos, proof.steps[|f|]).Ok?
    ensures Agrees(v, f + [VersionedId(ids[|f|], StepLeaf(hs, index, proof.pos, proof.steps[|f|]).value.0)])
  {
    hide StepLeaf, AskedIds, Nondecreasing;
    var id := ids[|f|];
    assert id == AskedIds(v, wanted, proof.pos, n)[|f|];
  }

  lemma AnswersNondecreasing<H>(hs: Hashes<H>, index: Index, wanted: Option<nat>, n: nat, proof: SearchProof<H>,
                                v: nat -> nat)
    requires Answers(hs, index, wanted, n, proof, v)
    ensures proof.pos < n && Nondecreasing(v, proof.pos, n)
  {
  }

  lemma NothingRecorded<H>(hs: Hashes<H>, index: Index, proof: SearchProof<H>, v: nat -> nat)
    ensures Recorded(hs, index, proof, [], map[]) && Taken(proof, [], map[]) && Agrees(v, [])
  {
  }

  lemma RecordStep<H>(hs: Hashes<H>, index: Index, proof: SearchProof<H>, f: seq<VersionedId>, leaves: map<nat, H>,
                      id: nat)
    requires Recorded(hs, index, proof, f, leaves) && |f| < |proof.steps| && id !in leaves
    requires StepLeaf(hs, index, proof.pos, proof.steps[|f|]).Ok?
    ensures var (ctr, leaf) := StepLeaf(hs, index, proof.pos, proof.steps[|f|]).value;
      Recorded(hs, index, proof, f + [VersionedId(id, ctr)], leaves[id := leaf])
  {
    hide StepLeaf;
    var (ctr, leaf) := StepLeaf(hs, index, proof.pos, proof.steps[|f|]).value;
    var f', leaves' := f + [VersionedId(id, ctr)], leaves[id := leaf];
    forall i | 0 <= i < |f'| ensures f'[i].id in leaves' &&
        StepLeaf(hs, index, proof.pos, proof.steps[i]) == Ok((f'[i].version, leaves'[f'[i].id])) {
      if i < |f| {
        assert f'[i] == f[i];
      }
    }
    forall x | x in leaves' ensures exists i :: 0 <= i < |f'| && f'[i].id == x {
      if x != id {
        var i :| 0 <= i < |f| && f[i].id == x;
        assert f'[i].id == x;
      } else {
        assert f'[|f|].id == x;
      }
    }
  }

  /** The search loop: asks the guide for ids and answers with the steps, in order. Reports the answer,
      and as ghosts what was recorded on the way. */
  method ConsumeSteps<H>(hs: Hashes<H>, index: Index, wanted: Option<nat>, n: nat, proof: SearchProof<H>,
                         ghost v: nat -> nat)
    returns (r: Result<(nat, Option<(nat, nat)>), Error>, leaves: map<nat, H>, steps: map<nat, ProofStep<H>>,
             ghost f: seq<VersionedId>, ghost t: nat)
    ensures r == Err(NoReturn) <==> proof.pos >= n
    ensures r.Ok? ==> Recorded(hs, index, proof, f, leaves) && Taken(proof, f, steps) && r.value.0 == |f|
    ensures r.Ok? ==> forall i :: 0 <= i < |f| ==> proof.pos <= f[i].id < n
    ensures r.Ok? ==> (wanted.Some? ==> t == wanted.value) && (wanted.None? ==> VersionedId(n - 1, t) in f)
    ensures r.Ok? ==> Settles(f, t, proof.pos, n, r.value.1)
    ensures Answers(hs, index, wanted, n, proof, v) ==> r.Ok? && Answered(wanted, n, proof, v, f, t)
  {
    hide StepLeaf, AskedIds, Settles, Nondecreasing, Log2, Distinct, OnTrack, OnTrackToEnd, Narrowed, Pinned,
         OrderedById, Monotonic, Agrees, Recorded, Taken, Answers, Answered, Frontier;
    var pos := proof.pos;
    var i := 0;
    leaves, steps, f, t := map[], map[], [], 0;
    var started := ProofGuide.New(wanted, pos, n, v);
    if started.None? {
      if Answers(hs, index, wanted, n, proof, v) {
        AnswersNondecreasing(hs, index, wanted, n, proof, v);
      }
      return Err(NoReturn), leaves, steps, f, t;
    }
    var guide := started.value;
    NothingRecorded(hs, index, proof, v);
    while true
      invariant fresh(guide) && guide.Valid() && guide.pos == pos && guide.n == n && guide.wanted == wanted
      invariant guide.v == v
      invariant i == |guide.fetched| && Recorded(hs, index, proof, guide.fetched, leaves)
      invariant Taken(proof, guide.fetched, steps)
      invariant Answers(hs, index, wanted, n, proof, v) ==> Agrees(v, guide.fetched)
      decreases guide.LookupLimit() - i
    {
      var done := guide.Poll();
      if done.Err? {
        if Answers(hs, index, wanted, n, proof, v) {
          AnswersNondecreasing(hs, index, wanted, n, proof, v);
          NotNondecreasing(v, guide.fetched, guide.sorted, pos, n);
        }
        return Err(VerificationFailed), leaves, steps, f, t;
      }
      if done.value {
        f, t := guide.fetched, guide.version;
        if Answers(hs, index, wanted, n, proof, v) {
          AnsweredAtEnd(hs, index, wanted, n, proof, v, f, guide.ids, t);
        }
        var answer := guide.Result();
        return Ok((i, answer)), leaves, steps, f, t;
      }
      var id := guide.NextId();
      if Answers(hs, index, wanted, n, proof, v) {
        guide.IdsLead();
        AnsweredStep(hs, index, wanted, n, proof, v, guide.fetched, guide.ids);
      }
      if i >= |proof.steps| {
        return Err(VerificationFailed), leaves, steps, f, t;
      }
      var leaf := EvaluateStep(hs, index, pos, proof.steps[i]);
      match leaf {
        case Err(e) => return Err(e), leaves, steps, f, t;
        case Ok((ctr, value)) =>
          NewId(hs, index, proof, guide.fetched, guide.ids, leaves, id);
          RecordStep(hs, index, proof, guide.fetched, leaves, id);
          TakeStep(hs, index, proof, guide.fetched, guide.ids, steps, VersionedId(id, ctr));
          guide.Insert(id, ctr);
          leaves := leaves[id := value];
          steps := steps[id := proof.steps[i]];
          i := i + 1;
      }
    }
  }

  lemma TakeStep<H>(hs: Hashes<H>, index: Index, proof: SearchProof<H>, f: seq<VersionedId>, ids: seq<nat>,
                    steps: map<nat, ProofStep<H>>, w: VersionedId)
    requires Taken(proof, f, steps) && Fetched(f, ids) && Distinct(ids) && |f| < |ids| && |f| < |proof.steps|
    requires w.id == ids[|f|]
    ensures Taken(proof, f + [w], steps[w.id := proof.steps[|f|]])
  {
    var f' := f + [w];
    assert forall i :: 0 <= i < |f| ==> f'[i] == f[i];
    assert f'[|f|].id == w.id;
    var steps' := steps[w.id := proof.steps[|f|]];
    forall x | x in steps' ensures exists i :: 0 <= i < |f'| && f'[i].id == x {
      if x != w.id {
        var i :| 0 <= i < |f| && f[i].id == x;
        assert f'[i].id == x;
      }
    }
  }

  lemma NewId<H>(hs: Hashes<H>, index: Index, proof: SearchProof<H>, f: seq<VersionedId>, ids: seq<nat>,
                 leaves: map<nat, H>, id: nat)
    requires Fetched(f, ids) && Distinct(ids) && |f| < |ids| && id == ids[|f|]
    requires Recorded(hs, index, proof, f, leaves)
    ensures id !in leaves
  {
    hide StepLeaf;
  }

  ghost predicate Occurs(v: nat -> nat, pos: nat, n: nat, t: nat) {
    exists i: nat :: pos <= i < n && v(i) == t
  }

  /** Evaluates a search proof to a candidate root and the position of the answer. */
  method EvaluateSearch<H>(hs: Hashes<H>, index: Index, wanted: Option<nat>, n: nat, proof: SearchProof<H>,
                           ghost v: nat -> nat)
    returns (r: Result<Outcome<H>, Error>, steps: map<nat, ProofStep<H>>,
             ghost f: seq<VersionedId>, ghost t: nat, ghost leaves: map<nat, H>,
             ghost ids: seq<nat>, ghost values: seq<H>)
    ensures r == Err(NoReturn) <==> proof.pos >= n
    ensures r.Ok? ==>
      Certified(hs, index, wanted, n, proof, r.value, f, t, leaves, ids, values) && Taken(proof, f, steps)
    ensures Answers(hs, index, wanted, n, proof, v) && HashList(proof.inclusion).Ok? ==>
      && Answered(wanted, n, proof, v, f, t) && Recorded(hs, index, proof, f, leaves) && PairsOf(leaves, ids, values)
      && (BatchRoot(hs.tree, ids, n, values, HashList(proof.inclusion).value).Ok? ==>
           Occurs(v, proof.pos, n, t) ==> r.Ok?)
  {
    hide StepLeaf, AskedIds, Settles, Recorded, Taken, Answers, Answered, BatchRoot, PairsOf;
    ids, values := [], [];
    var consumed, leafMap;
    consumed, leafMap, steps, f, t := ConsumeSteps(hs, index, wanted, n, proof, v);
    leaves := leafMap;
    match consumed {
      case Err(e) => return Err(e), steps, f, t, leaves, ids, values;
      case Ok((count, answer)) =>
        if Answers(hs, index, wanted, n, proof, v) {
          AnsweredCount(wanted, n, proof, v, f, t, answer, hs, index);
        }
        if count != |proof.steps| {
          return Err(VerificationFailed), steps, f, t, leaves, ids, values;
        }
        var inclusion := HashList(proof.inclusion);
        if inclusion.Err? {
          return Err(BadData), steps, f, t, leaves, ids, values;
        }
        var pairIds, pairValues := IntoSortedPairs(leafMap);
        ids, values := pairIds, pairValues;
        var root := EvaluateBatchProof(hs.tree, pairIds, n, pairValues, inclusion.value);
        match root {
          case Err(e) => return Err(VerificationFailed), steps, f, t, leaves, ids, values;
          case Ok(value) =>
            match answer {
              case None => return Err(VerificationFailed), steps, f, t, leaves, ids, values;
              case Some((i, id)) => return Ok(Outcome(value, i, id)), steps, f, t, leaves, ids, values;
            }
        }
    }
  }

  lemma AnsweredCount<H>(wanted: Option<nat>, n: nat, proof: SearchProof<H>, v: nat -> nat, f: seq<VersionedId>, t: nat,
                         answer: Option<(nat, nat)>, hs: Hashes<H>, index: Index)
    requires proof.pos < n && Answered(wanted, n, proof, v, f, t) && Answers(hs, index, wanted, n, proof, v)
    requires (forall i :: 0 <= i < |f| ==> proof.pos <= f[i].id < n) && Settles(f, t, proof.pos, n, answer)
    ensures |f| == |proof.steps|
    ensures Occurs(v, proof.pos, n, t) ==> answer.Some?
  {
    hide AskedIds, StepLeaf, Settles;
    SettledIsLeftmost(v, f, t, proof.pos, n, answer);
  }

  // What an accepted search means for a log -------------------------------------------------------

  /** A log and what its leaves commit to: prefix roots p, commitments c, and the versions v of a key, to
      which the prefix roots open by the proofs q. */
  datatype World<!H> = World(log: seq<H>, p: nat -> H, c: nat -> H, v: nat -> nat, q: nat -> seq<Bytes<H>>)

  /** The log's i-th leaf commits to a prefix root, which opens the key to version v(i), and to c(i). */
  ghost predicate IsLogOf<H>(hs: Hashes<H>, w: World<H>, index: Index, pos: nat) {
    forall i: nat :: pos <= i < |w.log| ==>
      w.log[i] == hs.leaf(w.p(i), w.c(i)) && Opens(hs.prefix, index, pos, PrefixProof(w.v(i), w.q(i))) == Ok(w.p(i))
  }

  /** A log whose leaves commit to prefix trees that hold the key with its versions is such a log: the prefix
      roots are those of the trees, and they open by the siblings on the key's path. */
  lemma LogOfTrees<H>(hs: Hashes<H>, w: World<H>, index: Index, pos: nat, trees: nat -> Content<H>)
    requires IsKey(index)
    requires forall i: nat :: pos <= i < |w.log| ==>
      && w.log[i] == hs.leaf(TreeRoot(hs.prefix, trees(i)), w.c(i)) && w.p(i) == TreeRoot(hs.prefix, trees(i))
      && KeyNumber(index) in trees(i).leaves && w.q(i) == Siblings(hs.prefix, trees(i), KeyNumber(index), 256)
      && trees(i).leaves[KeyNumber(index)] == hs.prefix.leaf(index, w.v(i), pos)
    ensures IsLogOf(hs, w, index, pos)
  {
    hide Opens, KeyNumber, TreeRoot, Siblings, IsKey;
    forall i: nat | pos <= i < |w.log|
      ensures w.log[i] == hs.leaf(w.p(i), w.c(i))
      ensures Opens(hs.prefix, index, pos, PrefixProof(w.v(i), w.q(i))) == Ok(w.p(i))
    {
      TreeOpens(hs.prefix, trees(i), index, w.v(i), pos);
    }
  }

  /** A step and what the log commits to at a position exhibit a collision: of the leaf hash, or between
      their openings. */
  ghost predicate StepClash<H>(hs: Hashes<H>, w: World<H>, index: Index, pos: nat, step: ProofStep<H>, id: nat) {
    && StepLeaf(hs, index, pos, step).Ok?
    && var root, commitment := Opens(hs.prefix, index, pos, step.prefix.value).value, step.commitment.value;
       || (hs.leaf(root, commitment) == hs.leaf(w.p(id), w.c(id)) && (root != w.p(id) || commitment != w.c(id)))
       || OpeningClash(hs.prefix, index, pos, step.prefix.value, PrefixProof(w.v(id), w.q(id)))
  }

  /** The inclusion proof or a step of a search exhibits a collision with the log. */
  ghost predicate SearchClash<H>(hs: Hashes<H>, w: World<H>, index: Index, proof: SearchProof<H>,
                                 f: seq<VersionedId>, ids: seq<nat>, values: seq<H>) {
    || (LeafList(ids, |w.log|) && HashList(proof.inclusion).Ok? &&
         BatchClash(hs.tree, w.log, ids, values, HashList(proof.inclusion).value))
    || exists i :: 0 <= i < |f| && i < |proof.steps| && StepClash(hs, w, index, proof.pos, proof.steps[i], f[i].id)
  }

  /** Collision-free hash functions never clash. */
  lemma NoSearchClash<H(!new)>(hs: Hashes<H>, w: World<H>, index: Index, proof: SearchProof<H>,
                               f: seq<VersionedId>, ids: seq<nat>, values: seq<H>)
    requires AllCollisionFree(hs)
    ensures !SearchClash(hs, w, index, proof, f, ids, values)
  {
    if LeafList(ids, |w.log|) && HashList(proof.inclusion).Ok? {
      NoBatchClash(hs.tree, w.log, ids, values, HashList(proof.inclusion).value);
    }
    forall i | 0 <= i < |f| && i < |proof.steps| ensures !StepClash(hs, w, index, proof.pos, proof.steps[i], f[i].id) {
      NoStepClash(hs, w, index, proof.pos, proof.steps[i], f[i].id);
    }
  }

  lemma NoStepClash<H(!new)>(hs: Hashes<H>, w: World<H>, index: Index, pos: nat, step: ProofStep<H>, id: nat)
    requires AllCollisionFree(hs)
    ensures !StepClash(hs, w, index, pos, step, id)
  {
    hide Opens, BothCollisionFree, CollisionFree, OpeningClash;
    if StepLeaf(hs, index, pos, step).Ok? {
      NoOpeningClash(hs.prefix, index, pos, step.prefix.value, PrefixProof(w.v(id), w.q(id)));
    }
  }

  lemma StepIsLeaf<H>(hs: Hashes<H>, w: World<H>, index: Index, pos: nat, step: ProofStep<H>, id: nat)
    requires IsLogOf(hs, w, index, pos) && pos <= id < |w.log| && !StepClash(hs, w, index, pos, step, id)
    requires StepLeaf(hs, index, pos, step).Ok? && StepLeaf(hs, index, pos, step).value.1 == w.log[id]
    ensures StepLeaf(hs, index, pos, step).value.0 == w.v(id)
    ensures step.commitment == Hash(w.c(id))
  {
    hide Opens, OpeningClash;
    OpeningIsBinding(hs.prefix, index, pos, step.prefix.value, PrefixProof(w.v(id), w.q(id)));
  }

  lemma PairsAreLeafList<H>(m: map<nat, H>, ids: seq<nat>, values: seq<H>, n: nat)
    requires PairsOf(m, ids, values) && m != map[] && forall x :: x in m ==> x < n
    ensures LeafList(ids, n) && Ascending(ids)
  {
    var x :| x in m;
    assert x in ids;
    assert forall i :: 0 <= i < |ids| ==> ids[i] in ids;
  }

  lemma RecordedWithin<H>(hs: Hashes<H>, index: Index, proof: SearchProof<H>, f: seq<VersionedId>, leaves: map<nat, H>,
                          n: nat)
    requires Recorded(hs, index, proof, f, leaves) && f != [] && forall i :: 0 <= i < |f| ==> f[i].id < n
    ensures leaves != map[] && forall x :: x in leaves ==> x < n
  {
    hide StepLeaf;
    assert f[0].id in leaves;
  }

  /** An accepted search against a log has seen the log's own leaves, and so its true counters. */
  lemma CertifiedAgrees<H>(hs: Hashes<H>, w: World<H>, index: Index, wanted: Option<nat>, proof: SearchProof<H>,
                           o: Outcome<H>,
                           f: seq<VersionedId>, t: nat, leaves: map<nat, H>, ids: seq<nat>, values: seq<H>)
    requires IsLogOf(hs, w, index, proof.pos) && !SearchClash(hs, w, index, proof, f, ids, values)
    requires Certified(hs, index, wanted, |w.log|, proof, o, f, t, leaves, ids, values) && f != []
    requires w.log != [] && o.root == LogRoot(hs.tree, w.log)
    ensures Agrees(w.v, f)
    ensures forall i :: 0 <= i < |f| ==> proof.steps[i].commitment == Hash(w.c(f[i].id))
  {
    hide StepLeaf, LogRoot, StepClash, BatchClash, Settles, BatchRoot, IsLogOf, CopathIds, HashesAt, AllInLog, HashList;
    var n := |w.log|;
    RecordedWithin(hs, index, proof, f, leaves, n);
    PairsAreLeafList(leaves, ids, values, n);
    BatchProofIsExact(hs.tree, w.log, ids, values, HashList(proof.inclusion).value);
    forall i | 0 <= i < |f|
      ensures f[i].version == w.v(f[i].id) && proof.steps[i].commitment == Hash(w.c(f[i].id))
    {
      var id := f[i].id;
      assert id in ids;
      var u :| 0 <= u < |ids| && ids[u] == id;
      assert leaves[id] == w.log[id];
      StepIsLeaf(hs, w, index, proof.pos, proof.steps[i], id);
    }
  }

  /** Search soundness: if the computed root is the root of a log with nondecreasing versions, an
      accepted search has found the least position of the version it looked for, the last version when
      none was requested, and the commitment it opens is the log's commitment there; or response and log
      exhibit a collision. */
  lemma SearchIsSound<H>(hs: Hashes<H>, w: World<H>, index: Index, wanted: Option<nat>, proof: SearchProof<H>,
                         o: Outcome<H>,
                         f: seq<VersionedId>, t: nat, leaves: map<nat, H>, ids: seq<nat>, values: seq<H>)
    requires IsLogOf(hs, w, index, proof.pos) && Nondecreasing(w.v, proof.pos, |w.log|)
    requires Certified(hs, index, wanted, |w.log|, proof, o, f, t, leaves, ids, values)
    requires w.log != [] && o.root == LogRoot(hs.tree, w.log)
    ensures
      || SearchClash(hs, w, index, proof, f, ids, values)
      || (IsLeast(w.v, proof.pos, |w.log|, Target(w.v, wanted, |w.log|), o.id) &&
           o.index < |proof.steps| && proof.steps[o.index].commitment == Hash(w.c(o.id)))
  {
    hide SearchClash, IsLogOf, LogRoot, BatchRoot, PairsOf, Recorded;
    if !SearchClash(hs, w, index, proof, f, ids, values) {
      var n := |w.log|;
      var answer := Some((o.index, o.id));
      var b: nat :| proof.pos <= b <= n && Pinned(f, t, proof.pos, n, b, b) && SettlesAt(f, t, n, b, answer);
      CertifiedAgrees(hs, w, index, wanted, proof, o, f, t, leaves, ids, values);
      SettledIsLeftmost(w.v, f, t, proof.pos, n, Some((o.index, o.id)));
    }
  }

  /** The inclusion proof is the log's hashes at the copath of some leaves. */
  ghost predicate InclusionOf<H>(h: TreeHash<H>, log: seq<H>, leaves: set<nat>, inclusion: seq<Bytes<H>>) {
    && HashList(inclusion).Ok?
    && forall ids :: LeafList(ids, |log|) && (forall x :: x in ids <==> x in leaves) ==>
         && AllInLog(|log|, CopathIds(ids, |log|))
         && HashList(inclusion).value == HashesAt(h, log, CopathIds(ids, |log|))
  }

  /** The proof of a server that answers from the log: for every position the search asks for, in that
      order, a step with the log's leaf, version and commitment; and the log's hashes at their copath. */
  ghost predicate HonestProof<H>(hs: Hashes<H>, w: World<H>, index: Index, wanted: Option<nat>, proof: SearchProof<H>) {
    && proof.pos < |w.log| && Nondecreasing(w.v, proof.pos, |w.log|)
    && Occurs(w.v, proof.pos, |w.log|, Target(w.v, wanted, |w.log|))
    && var asked := AskedIds(w.v, wanted, proof.pos, |w.log|);
       && |proof.steps| == |asked|
       && (forall i :: 0 <= i < |asked| ==>
            && asked[i] < |w.log|
            && StepLeaf(hs, index, proof.pos, proof.steps[i]) == Ok((w.v(asked[i]), w.log[asked[i]]))
            && proof.steps[i].commitment == Hash(w.c(asked[i])))
       && InclusionOf(hs.tree, w.log, Elements(asked), proof.inclusion)
  }

  /** Search completeness: steps that answer what is asked with the log's leaves, and an inclusion proof
      made of the log's hashes, evaluate to the log's root. */
  lemma HonestRoot<H>(hs: Hashes<H>, log: seq<H>, index: Index, wanted: Option<nat>, proof: SearchProof<H>,
                      v: nat -> nat,
                      f: seq<VersionedId>, t: nat, leaves: map<nat, H>, ids: seq<nat>, values: seq<H>)
    requires proof.pos < |log| && proof.steps != [] && Answered(wanted, |log|, proof, v, f, t)
    requires forall i :: 0 <= i < |f| ==>
      f[i].id < |log| && StepLeaf(hs, index, proof.pos, proof.steps[i]) == Ok((f[i].version, log[f[i].id]))
    requires Recorded(hs, index, proof, f, leaves) && PairsOf(leaves, ids, values)
    ensures LeafList(ids, |log|) && AllInLog(|log|, CopathIds(ids, |log|))
    ensures HashList(proof.inclusion) == Ok(HashesAt(hs.tree, log, CopathIds(ids, |log|))) ==>
      BatchRoot(hs.tree, ids, |log|, values, HashList(proof.inclusion).value) == Ok(LogRoot(hs.tree, log))
  {
    hide StepLeaf, AskedIds, LogRoot, BatchRoot, CopathIds, HashesAt;
    var n := |log|;
    RecordedWithin(hs, index, proof, f, leaves, n);
    PairsAreLeafList(leaves, ids, values, n);
    forall u | 0 <= u < |ids| ensures values[u] == log[ids[u]] {
      assert ids[u] in leaves;
      var i :| 0 <= i < |f| && f[i].id == ids[u];
      assert StepLeaf(hs, index, proof.pos, proof.steps[i]) == Ok((f[i].version, leaves[f[i].id]));
    }
    assert values == LeavesAt(log, ids);
    BatchProofAccepts(hs.tree, log, ids);
  }

  lemma HonestAnswers<H>(hs: Hashes<H>, w: World<H>, index: Index, wanted: Option<nat>, proof: SearchProof<H>)
    requires HonestProof(hs, w, index, wanted, proof)
    ensures Answers(hs, index, wanted, |w.log|, proof, w.v)
  {
    hide AskedIds, StepLeaf, InclusionOf, Nondecreasing, Occurs;
  }

  /** An honest proof evaluates to the log's root, and finds what it looks for. */
  lemma HonestEvaluates<H>(hs: Hashes<H>, w: World<H>, index: Index, wanted: Option<nat>, proof: SearchProof<H>,
                           f: seq<VersionedId>, t: nat, leaves: map<nat, H>, ids: seq<nat>, values: seq<H>)
    requires HonestProof(hs, w, index, wanted, proof) && Answered(wanted, |w.log|, proof, w.v, f, t)
    requires Recorded(hs, index, proof, f, leaves) && PairsOf(leaves, ids, values)
    ensures HashList(proof.inclusion).Ok? && Occurs(w.v, proof.pos, |w.log|, t)
    ensures BatchRoot(hs.tree, ids, |w.log|, values, HashList(proof.inclusion).value) == Ok(LogRoot(hs.tree, w.log))
  {
    hide StepLeaf, AskedIds, LogRoot, BatchRoot, CopathIds, HashesAt, AllInLog, HashList, Occurs, Nondecreasing;
    AsksSomething(w.v, wanted, proof.pos, |w.log|);
    HonestRoot(hs, w.log, index, wanted, proof, w.v, f, t, leaves, ids, values);
    var asked := AskedIds(w.v, wanted, proof.pos, |w.log|);
    forall x ensures x in ids <==> x in Elements(asked) {
      RecordedAre(hs, index, proof, f, leaves, x);
      if x in asked {
        var i :| 0 <= i < |asked| && asked[i] == x;
        assert f[i].id == x;
      }
    }
  }

  lemma HonestInclusion<H>(hs: Hashes<H>, w: World<H>, index: Index, wanted: Option<nat>, proof: SearchProof<H>)
    requires HonestProof(hs, w, index, wanted, proof)
    ensures HashList(proof.inclusion).Ok?
  {
    hide StepLeaf, AskedIds, CopathIds, HashesAt, AllInLog, HashList, Occurs, Nondecreasing;
  }

  lemma AsksSomething(v: nat -> nat, wanted: Option<nat>, pos: nat, n: nat)
    requires pos < n
    ensures AskedIds(v, wanted, pos, n) != []
  {
    hide Lo, Hi;
  }

  lemma RecordedAre<H>(hs: Hashes<H>, index: Index, proof: SearchProof<H>, f: seq<VersionedId>, leaves: map<nat, H>,
                       x: nat)
    requires Recorded(hs, index, proof, f, leaves)
    ensures x in leaves <==> exists i :: 0 <= i < |f| && f[i].id == x
  {
    hide StepLeaf;
  }
}
