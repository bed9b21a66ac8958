/** The verification of a monitor response for several keys at once (verify.rs, `verify_monitor`). */
module VerifyMonitor {
  import opened Wrappers
  import opened Sequences
  import opened Merkle
  import opened BatchCopath
  import opened LogProofs
  import opened ImplicitTree
  import opened Prefix
  import opened Search
  import opened TreeHeads
  import opened Monitoring
  import opened VerifySearch

  type SearchKey = seq<nat>

  datatype MonitorKey = MonitorKey(searchKey: SearchKey, entry: nat)

  type StoredKeys = map<SearchKey, MonitoringData>

  /** A key's proof steps give, for every position of its full monitoring path, the recorded leaf. */
  ghost predicate Monitored<H>(hs: Hashes<H>, n: nat, data: MonitoringData, entry: nat, steps: map<nat, ProofStep<H>>,
                               leaves: map<nat, H>) {
    && HasPath(entry, data.pos, n)
    && (forall x :: x in steps <==> x in FullPath(entry, data.pos, n))
    && (forall x :: x in steps ==>
         && x in leaves
         && StepLeaf(hs, data.index, data.pos, steps[x]).Ok?
         && StepLeaf(hs, data.index, data.pos, steps[x]).value.1 == leaves[x])
  }

  /** The same for the part of the path before index i. */
  ghost predicate MonitoredPart<H>(hs: Hashes<H>, data: MonitoringData, path: seq<nat>, i: nat,
                                   steps: map<nat, ProofStep<H>>, leaves: map<nat, H>)
    requires i <= |path|
  {
    && (forall x :: x in steps <==> x in path[..i])
    && (forall x :: x in steps ==>
         && x in leaves
         && StepLeaf(hs, data.index, data.pos, steps[x]).Ok?
         && StepLeaf(hs, data.index, data.pos, steps[x]).value.1 == leaves[x])
  }

  /** The steps are those of the proof, by position. */
  ghost predicate StepsOf<H>(path: seq<nat>, proof: seq<ProofStep<H>>, i: nat, steps: map<nat, ProofStep<H>>)
    requires i <= |path| == |proof|
  {
    forall j :: 0 <= j < i ==> path[j] in steps && steps[path[j]] == proof[j]
  }

  /** A step of the proof for every position of the path, and no other. */
  ghost predicate EntryOf<H>(path: seq<nat>, proof: seq<ProofStep<H>>, steps: map<nat, ProofStep<H>>) {
    |path| == |proof| && StepsOf(path, proof, |path|, steps) && forall x :: x in steps <==> x in path
  }

  /** Steps that `process` accepts: one for every position, each a leaf that nothing recorded contradicts. */
  ghost predicate Fits<H>(hs: Hashes<H>, data: MonitoringData, path: seq<nat>, proof: seq<ProofStep<H>>,
                          leaves: map<nat, H>) {
    && |path| == |proof|
    && forall i :: 0 <= i < |path| ==> FitsAt(hs, data, path, proof, leaves, i)
  }

  ghost predicate FitsAt<H>(hs: Hashes<H>, data: MonitoringData, path: seq<nat>, proof: seq<ProofStep<H>>,
                            leaves: map<nat, H>, i: nat)
    requires i < |path| == |proof|
  {
    var leaf := StepLeaf(hs, data.index, data.pos, proof[i]);
    leaf.Ok? && (path[i] in leaves ==> leaves[path[i]] == leaf.value.1)
  }

  lemma NotYet(path: seq<nat>, i: nat)
    requires i < |path| && Increasing(path)
    ensures path[i] !in path[..i] && path[..i + 1] == path[..i] + [path[i]]
    ensures forall j :: 0 <= j < i ==> path[j] != path[i]
  {
    assert forall j :: 0 <= j < i ==> path[j] < path[i];
  }

  ghost predicate Grows<H>(a: map<nat, H>, b: map<nat, H>) {
    forall x :: x in a ==> x in b && b[x] == a[x]
  }

  lemma MonitoredGrows<H>(hs: Hashes<H>, n: nat, data: MonitoringData, entry: nat, steps: map<nat, ProofStep<H>>,
                          a: map<nat, H>, b: map<nat, H>)
    requires Monitored(hs, n, data, entry, steps, a) && Grows(a, b)
    ensures Monitored(hs, n, data, entry, steps, b)
  {
    hide StepLeaf, FullPath;
  }

  lemma MonitoredOneMore<H>(hs: Hashes<H>, data: MonitoringData, path: seq<nat>, i: nat, step: ProofStep<H>, leaf: H,
                            steps: map<nat, ProofStep<H>>, leaves: map<nat, H>)
    requires i < |path| && Increasing(path) && MonitoredPart(hs, data, path, i, steps, leaves)
    requires StepLeaf(hs, data.index, data.pos, step).Ok? && StepLeaf(hs, data.index, data.pos, step).value.1 == leaf
    requires path[i] in leaves ==> leaves[path[i]] == leaf
    ensures MonitoredPart(hs, data, path, i + 1, steps[path[i] := step], leaves[path[i] := leaf])
    ensures Grows(leaves, leaves[path[i] := leaf])
  {
    hide StepLeaf;
    assert path[..i + 1] == path[..i] + [path[i]];
  }

  class MonitorProofAcc<H(==)> {
    const hs: Hashes<H>
    const treeSize: nat
    var leaves: map<nat, H>
    var entries: seq<map<nat, ProofStep<H>>>

    constructor (hs: Hashes<H>, treeSize: nat)
      ensures this.hs == hs && this.treeSize == treeSize && leaves == map[] && entries == []
    {
      this.hs, this.treeSize := hs, treeSize;
      leaves, entries := map[], [];
    }

    method Process(stored: StoredKeys, key: MonitorKey, proof: seq<ProofStep<H>>) returns (r: Result<(), Error>)
      modifies this
      ensures r == Err(NoReturn) <==> key.searchKey in stored && !InRange(stored, key, treeSize)
      ensures r.Ok? ==> InRange(stored, key, treeSize)
      ensures InRange(stored, key, treeSize) ==>
        (r.Ok? <==> Fits(hs, stored[key.searchKey], PathOf(stored, key, treeSize), proof, old(leaves)))
      ensures r.Ok? ==> Grows(old(leaves), leaves)
      ensures r.Ok? ==> |entries| == |old(entries)| + 1 && entries[..|old(entries)|] == old(entries)
      ensures r.Ok? ==> Monitored(hs, treeSize, stored[key.searchKey], key.entry, entries[|old(entries)|], leaves)
      ensures r.Ok? ==> forall x :: x in leaves <==> x in old(leaves) || x in PathOf(stored, key, treeSize)
      ensures r.Ok? ==> EntryOf(PathOf(stored, key, treeSize), proof, entries[|old(entries)|])
      ensures r.Ok? ==> leaves == Added(hs, treeSize, stored, key, proof, old(leaves))
    {
      hide StepLeaf, FullPath, Increasing, HasPath, Fits, Grows, Monitored, EntryOf, Processed, WithLeaves;
      if key.searchKey !in stored {
        return Err(BadData);
      }
      var data := stored[key.searchKey];
      var walked := FullMonitoringPath(key.entry, data.pos, treeSize);
      if walked.None? {
        return Err(NoReturn);
      }
      var path := walked.value;
      FullPathShape(key.entry, data.pos, treeSize);
      ghost var before := leaves;
      if |path| != |proof| {
        OtherLength(hs, data, path, proof, before);
        return Err(VerificationFailed);
      }
      var steps: map<nat, ProofStep<H>> := map[];
      NoneProcessed(hs, data, path, proof, before);
      for i := 0 to |path|
        invariant entries == old(entries) && Processed(hs, data, path, proof, before, i, steps, leaves)
      {
        NextStep(hs, data, path, proof, before, i, steps, leaves);
        var leaf := EvaluateStep(hs, data.index, data.pos, proof[i]);
        match leaf {
          case Err(e) => return Err(e);
          case Ok((_, value)) =>
            if path[i] in leaves && leaves[path[i]] != value {
              return Err(VerificationFailed);
            }
            leaves := leaves[path[i] := value];
            steps := steps[path[i] := proof[i]];
        }
      }
      AllProcessed(hs, stored, key, treeSize, proof, before, steps, leaves);
      entries := entries + [steps];
      return Ok(());
    }
  }

  /** The leaves of a path's steps, added to those already recorded. */
  ghost function WithLeaves<H>(hs: Hashes<H>, data: MonitoringData, path: seq<nat>, proof: seq<ProofStep<H>>,
                               leaves: map<nat, H>): map<nat, H>
    requires |path| == |proof|
  {
    if path == [] then leaves
    else
      var i := |path| - 1;
      var before := WithLeaves(hs, data, path[..i], proof[..i], leaves);
      match StepLeaf(hs, data.index, data.pos, proof[i])
      case Ok((_, leaf)) => before[path[i] := leaf]
      case Err(_) => before
  }

  lemma OneLeafMore<H>(hs: Hashes<H>, data: MonitoringData, path: seq<nat>, proof: seq<ProofStep<H>>,
                       leaves: map<nat, H>, i: nat)
    requires i < |path| == |proof| && StepLeaf(hs, data.index, data.pos, proof[i]).Ok?
    ensures var leaf := StepLeaf(hs, data.index, data.pos, proof[i]).value.1;
      WithLeaves(hs, data, path[..i + 1], proof[..i + 1], leaves) ==
      WithLeaves(hs, data, path[..i], proof[..i], leaves)[path[i] := leaf]
  {
    hide StepLeaf;
    assert path[..i + 1][..i] == path[..i] && proof[..i + 1][..i] == proof[..i];
  }

  /** The state after the steps for the first i positions of a path. */
  ghost predicate Processed<H>(hs: Hashes<H>, data: MonitoringData, path: seq<nat>, proof: seq<ProofStep<H>>,
                               before: map<nat, H>,
                               i: nat, steps: map<nat, ProofStep<H>>, leaves: map<nat, H>)
    requires i <= |path| == |proof|
  {
    && Grows(before, leaves) && MonitoredPart(hs, data, path, i, steps, leaves) && StepsOf(path, proof, i, steps)
    && leaves == WithLeaves(hs, data, path[..i], proof[..i], before)
    && (forall x :: x in leaves <==> x in before || x in path[..i])
    && (forall j :: 0 <= j < i ==> FitsAt(hs, data, path, proof, before, j))
  }

  lemma OtherLength<H>(hs: Hashes<H>, data: MonitoringData, path: seq<nat>, proof: seq<ProofStep<H>>,
                       before: map<nat, H>)
    requires |path| != |proof|
    ensures !Fits(hs, data, path, proof, before)
  {
  }

  lemma NoneProcessed<H>(hs: Hashes<H>, data: MonitoringData, path: seq<nat>, proof: seq<ProofStep<H>>,
                         before: map<nat, H>)
    requires |path| == |proof|
    ensures Processed(hs, data, path, proof, before, 0, map[], before)
  {
  }

  /** The next step is refused, and then the proof does not fit, or recorded. */
  lemma NextStep<H>(hs: Hashes<H>, data: MonitoringData, path: seq<nat>, proof: seq<ProofStep<H>>, before: map<nat, H>,
                    i: nat, steps: map<nat, ProofStep<H>>, leaves: map<nat, H>)
    requires i < |path| == |proof| && Increasing(path) && Processed(hs, data, path, proof, before, i, steps, leaves)
    ensures var leaf := StepLeaf(hs, data.index, data.pos, proof[i]);
      if leaf.Err? || (path[i] in leaves && leaves[path[i]] != leaf.value.1) then !Fits(hs, data, path, proof, before)
      else Processed(hs, data, path, proof, before, i + 1, steps[path[i] := proof[i]], leaves[path[i] := leaf.value.1])
  {
    hide StepLeaf, MonitoredPart, Increasing, WithLeaves;
    NotYet(path, i);
    var leaf := StepLeaf(hs, data.index, data.pos, proof[i]);
    if leaf.Err? || (path[i] in leaves && leaves[path[i]] != leaf.value.1) {
      assert !FitsAt(hs, data, path, proof, before, i);
    } else {
      MonitoredOneMore(hs, data, path, i, proof[i], leaf.value.1, steps, leaves);
      OneLeafMore(hs, data, path, proof, before, i);
    }
  }

  lemma AllProcessed<H>(hs: Hashes<H>, stored: StoredKeys, key: MonitorKey, n: nat, proof: seq<ProofStep<H>>,
                        before: map<nat, H>,
                        steps: map<nat, ProofStep<H>>, leaves: map<nat, H>)
    requires InRange(stored, key, n) && |PathOf(stored, key, n)| == |proof|
    requires Processed(hs, stored[key.searchKey], PathOf(stored, key, n), proof, before, |proof|, steps, leaves)
    ensures Fits(hs, stored[key.searchKey], PathOf(stored, key, n), proof, before) && Grows(before, leaves)
    ensures Monitored(hs, n, stored[key.searchKey], key.entry, steps, leaves)
    ensures EntryOf(PathOf(stored, key, n), proof, steps)
    ensures forall x :: x in leaves <==> x in before || x in PathOf(stored, key, n)
    ensures leaves == WithLeaves(hs, stored[key.searchKey], PathOf(stored, key, n), proof, before)
  {
    hide StepLeaf, FullPath, HasPath, FitsAt, WithLeaves;
    var path := PathOf(stored, key, n);
    assert path[..|path|] == path && proof[..|path|] == proof;
  }

  /** The candidate root: from the leaves and the inclusion proof, or given when there are no leaves. */
  ghost predicate CandidateRoot<H(!new)>(hs: Hashes<H>, n: nat, leaves: map<nat, H>, inclusion: seq<H>, root: H) {
    if leaves == map[] then inclusion == [root]
    else exists ids, values :: PairsOf(leaves, ids, values) && BatchRoot(hs.tree, ids, n, values, inclusion) == Ok(root)
  }

  /** The entries of a map in order are determined by the map. */
  lemma PairsUnique<H>(m: map<nat, H>, ids: seq<nat>, values: seq<H>, ids': seq<nat>, values': seq<H>)
    requires PairsOf(m, ids, values) && PairsOf(m, ids', values')
    ensures ids == ids' && values == values'
  {
    IncreasingSameElements(ids, ids');
  }

  method EvaluateRoot<H(!new)>(hs: Hashes<H>, n: nat, leaves: map<nat, H>, inclusion: seq<H>)
    returns (r: Result<H, Error>)
    ensures r.Ok? ==> CandidateRoot(hs, n, leaves, inclusion, r.value)
    ensures leaves == map[] ==> (r.Ok? <==> |inclusion| == 1) && (r.Ok? ==> r.value == inclusion[0])
    ensures forall root :: CandidateRoot(hs, n, leaves, inclusion, root) ==> r == Ok(root)
    ensures r != Err(NoReturn)
  {
    hide BatchRoot, PairsOf;
    if leaves == map[] {
      if |inclusion| == 1 {
        return Ok(inclusion[0]);
      }
      return Err(VerificationFailed);
    }
    var ids, values := IntoSortedPairs(leaves);
    forall ids', values' | PairsOf(leaves, ids', values') ensures ids' == ids && values' == values {
      PairsUnique(leaves, ids, values, ids', values');
    }
    var root := EvaluateBatchProof(hs.tree, ids, n, values, inclusion);
    match root {
      case Ok(value) => return Ok(value);
      case Err(e) => return Err(VerificationFailed);
    }
  }

  /** A log, what it commits to, and the versions of each monitored key. */
  datatype KeyWorld<!H> = KeyWorld(
    log: seq<H>, p: nat -> H, c: nat -> H, v: SearchKey -> nat -> nat, q: SearchKey -> nat -> seq<Bytes<H>>)
  {
    /** The world of one key. */
    ghost function Of(k: SearchKey): World<H> {
      World(log, p, c, v(k), q(k))
    }
  }

  ghost predicate AboutKeys<H>(hs: Hashes<H>, w: KeyWorld<H>, stored: StoredKeys, n: nat, root: H) {
    && |w.log| == n > 0 && root == LogRoot(hs.tree, w.log)
    && forall k :: k in stored ==> IsLogOf(hs, w.Of(k), stored[k].index, stored[k].pos) && Rising(w.v(k), stored[k].pos)
  }

  /** The inclusion proof and the log exhibit a collision. */
  ghost predicate LeavesClash<H(!new)>(hs: Hashes<H>, log: seq<H>, leaves: map<nat, H>, inclusion: seq<H>) {
    exists ids, values ::
      PairsOf(leaves, ids, values) && LeafList(ids, |log|) && BatchClash(hs.tree, log, ids, values, inclusion)
  }

  /** The steps of a key and the log exhibit a collision. */
  ghost predicate EntryClash<H>(hs: Hashes<H>, w: World<H>, data: MonitoringData, steps: map<nat, ProofStep<H>>) {
    exists x :: x in steps && x >= data.pos && StepClash(hs, w, data.index, data.pos, steps[x], x)
  }

  /** A monitor response exhibits a collision with the log. */
  ghost predicate MonitorClash<H(!new)>(hs: Hashes<H>, w: KeyWorld<H>, stored: StoredKeys, keys: seq<MonitorKey>,
                                        entries: seq<map<nat, ProofStep<H>>>, leaves: map<nat, H>,
                                        inclusion: seq<Bytes<H>>) {
    || (HashList(inclusion).Ok? && LeavesClash(hs, w.log, leaves, HashList(inclusion).value))
    || exists i :: 0 <= i < |keys| && i < |entries| && keys[i].searchKey in stored &&
         EntryClash(hs, w.Of(keys[i].searchKey), stored[keys[i].searchKey], entries[i])
  }

  /** Collision-free hash functions never clash. */
  lemma NoMonitorClash<H(!new)>(hs: Hashes<H>, w: KeyWorld<H>, stored: StoredKeys, keys: seq<MonitorKey>,
                                entries: seq<map<nat, ProofStep<H>>>, leaves: map<nat, H>, inclusion: seq<Bytes<H>>)
    requires AllCollisionFree(hs)
    ensures !MonitorClash(hs, w, stored, keys, entries, leaves, inclusion)
  {
    hide BatchClash, StepClash, PairsOf, LeafList, HashList, BothCollisionFree, CollisionFree;
    if HashList(inclusion).Ok? {
      var hashes := HashList(inclusion).value;
      forall ids, values | LeafList(ids, |w.log|) ensures !BatchClash(hs.tree, w.log, ids, values, hashes) {
        NoBatchClash(hs.tree, w.log, ids, values, hashes);
      }
    }
    forall u: World<H>, data: MonitoringData, step: ProofStep<H>, x: nat
      ensures !StepClash(hs, u, data.index, data.pos, step, x)
    {
      NoStepClash(hs, u, data.index, data.pos, step, x);
    }
  }

  ghost predicate TruthfulKeys<H>(w: KeyWorld<H>, stored: StoredKeys, data: StoredKeys, n: nat) {
    forall k :: k in data ==> k in stored && Truthful(Some(data[k]), stored[k].index, stored[k].pos, n, w.v(k))
  }

  lemma LeavesAreTrue<H(!new)>(hs: Hashes<H>, log: seq<H>, leaves: map<nat, H>, inclusion: seq<H>, root: H)
    requires log != [] && root == LogRoot(hs.tree, log) && !LeavesClash(hs, log, leaves, inclusion)
    requires CandidateRoot(hs, |log|, leaves, inclusion, root) && forall x :: x in leaves ==> x < |log|
    ensures forall x :: x in leaves ==> leaves[x] == log[x]
  {
    hide BatchRoot, BatchClash, LogRoot, CopathIds, HashesAt, AllInLog;
    if leaves != map[] {
      var ids, values :| PairsOf(leaves, ids, values) && BatchRoot(hs.tree, ids, |log|, values, inclusion) == Ok(root);
      PairsAreLeafList(leaves, ids, values, |log|);
      BatchProofIsExact(hs.tree, log, ids, values, inclusion);
      forall x | x in leaves ensures leaves[x] == log[x] {
        assert x in ids;
        var u :| 0 <= u < |ids| && ids[u] == x;
      }
    }
  }

  /** In an accepted response the steps of every key carry the key's true versions. */
  lemma MonitoredIsTrue<H(!new)>(hs: Hashes<H>, w: KeyWorld<H>, stored: StoredKeys, k: SearchKey, n: nat, root: H,
                                 entry: nat,
                                 steps: map<nat, ProofStep<H>>, leaves: map<nat, H>, inclusion: seq<H>)
    requires AboutKeys(hs, w, stored, n, root) && k in stored && Monitored(hs, n, stored[k], entry, steps, leaves)
    requires !LeavesClash(hs, w.log, leaves, inclusion) && !EntryClash(hs, w.Of(k), stored[k], steps)
    requires CandidateRoot(hs, n, leaves, inclusion, root) && forall x :: x in leaves ==> x < n
    ensures TruthfulSteps(steps, w.v(k), stored[k].pos)
  {
    hide LogRoot, IsLogOf, StepLeaf, FullPath, StepClash, LeavesClash, CandidateRoot, Rising, HasPath;
    var data := stored[k];
    LeavesAreTrue(hs, w.log, leaves, inclusion, root);
    FullPathShape(entry, data.pos, n);
    forall x | x in steps && x >= data.pos ensures steps[x].prefix.Some? && steps[x].prefix.value.counter == w.v(k)(x) {
      StepIsLeaf(hs, w.Of(k), data.index, data.pos, steps[x], x);
      StepCounter(hs, data.index, data.pos, steps[x]);
    }
  }

  /** The steps of a key carry the key's true versions. */
  ghost predicate TrueEntry<H>(w: KeyWorld<H>, stored: StoredKeys, key: MonitorKey, steps: map<nat, ProofStep<H>>) {
    key.searchKey in stored && TruthfulSteps(steps, w.v(key.searchKey), stored[key.searchKey].pos)
  }

  /** The leaves recorded for a key are those its steps give. */
  ghost predicate MonitoredKey<H>(hs: Hashes<H>, n: nat, stored: StoredKeys, key: MonitorKey,
                                  steps: map<nat, ProofStep<H>>, leaves: map<nat, H>) {
    key.searchKey in stored && Monitored(hs, n, stored[key.searchKey], key.entry, steps, leaves)
  }

  /** The stored data, the steps for it and the versions of all keys are as in the world. */
  ghost predicate AllTrue<H>(w: KeyWorld<H>, stored: StoredKeys, keys: seq<MonitorKey>, n: nat,
                             entries: seq<map<nat, ProofStep<H>>>)
    requires |keys| == |entries|
  {
    && (forall i :: 0 <= i < |keys| ==>
         TrueEntry(w, stored, keys[i], entries[i]))
    && TruthfulKeys(w, stored, stored, n)
    && (forall k :: k in stored ==> Rising(w.v(k), stored[k].pos))
  }

  /** Data whose pointers are exactly the moved ones, and which is otherwise unchanged. */
  ghost predicate UpdatedFrom<H>(data: MonitoringData, n: nat, steps: map<nat, ProofStep<H>>, data': MonitoringData) {
    data' == data.(ptrs := data'.ptrs) && IsUpdate(data.ptrs, data.ptrs.Keys, n, steps, data'.ptrs)
  }

  /** There is new data for exactly the first m requested keys, each from its last request. */
  ghost predicate UpdatedKeys<H>(stored: StoredKeys, keys: seq<MonitorKey>, n: nat,
                                 entries: seq<map<nat, ProofStep<H>>>, m: nat,
                                 data: StoredKeys)
    requires m <= |keys| == |entries|
  {
    && (forall k :: k in data ==> exists i :: 0 <= i < m && keys[i].searchKey == k)
    && (forall i :: 0 <= i < m ==> keys[i].searchKey in data && keys[i].searchKey in stored)
    && (forall i :: 0 <= i < m && LastRequest(keys, m, i) ==>
         UpdatedFrom(stored[keys[i].searchKey], n, entries[i], data[keys[i].searchKey]))
  }

  ghost predicate LastRequest(keys: seq<MonitorKey>, m: nat, i: nat)
    requires i < m <= |keys|
  {
    forall j :: i < j < m ==> keys[j].searchKey != keys[i].searchKey
  }

  lemma NothingUpdated<H>(stored: StoredKeys, keys: seq<MonitorKey>, n: nat, entries: seq<map<nat, ProofStep<H>>>)
    requires |keys| == |entries|
    ensures UpdatedKeys(stored, keys, n, entries, 0, map[])
  {
  }

  lemma UpdatedOneMore<H>(stored: StoredKeys, keys: seq<MonitorKey>, n: nat, entries: seq<map<nat, ProofStep<H>>>,
                          m: nat,
                          data: StoredKeys, k: SearchKey, data': MonitoringData)
    requires m < |keys| == |entries| && k == keys[m].searchKey && k in stored
    requires UpdatedFrom(stored[k], n, entries[m], data')
    requires UpdatedKeys(stored, keys, n, entries, m, data)
    ensures UpdatedKeys(stored, keys, n, entries, m + 1, data[k := data'])
  {
    hide UpdatedFrom, LastRequest;
    var data1 := data[k := data'];
    assert forall x :: x in data1 && x != k ==> x in data;
    forall i | 0 <= i < m + 1 && LastRequest(keys, m + 1, i)
      ensures UpdatedFrom(stored[keys[i].searchKey], n, entries[i], data1[keys[i].searchKey])
    {
      if i < m {
        StillLast(keys, m, i);
      }
    }
  }

  lemma StillLast(keys: seq<MonitorKey>, m: nat, i: nat)
    requires i < m < |keys| && LastRequest(keys, m + 1, i)
    ensures LastRequest(keys, m, i) && keys[m].searchKey != keys[i].searchKey
  {
  }

  /** Applies the steps of one key to its stored data. */
  method UpdateKey<H>(data: MonitoringData, n: nat, steps: map<nat, ProofStep<H>>, ghost v: nat -> nat)
    returns (r: Result<MonitoringData, Error>)
    requires PointersBelow(Some(data), n)
    ensures r.Ok? <==> CanUpdate(data.ptrs, n, steps)
    ensures r.Ok? ==> UpdatedFrom(data, n, steps, r.value)
    ensures r.Ok? ==> Keeps(Some(data), Some(r.value), n) && PointersBelow(Some(r.value), n)
    ensures r != Err(NoReturn)
    ensures Rising(v, data.pos) && TruthfulSteps(steps, v, data.pos) ==>
      (Truthful(Some(data), data.index, data.pos, n, v) ==>
        r.Ok? && Truthful(Some(r.value), data.index, data.pos, n, v))
  {
    hide Moved, CanUpdate, IsUpdate, TruthfulSteps, Rising, Truthful, Keeps;
    var mdw := new MonitoringDataWrapper(Some(data));
    var u := mdw.Update(n, steps);
    if Rising(v, data.pos) && TruthfulSteps(steps, v, data.pos) && Truthful(Some(data), data.index, data.pos, n, v) {
      HonestStep(Operation.Update(n, steps), data.index, data.pos, n, v, Some(data), mdw.inner, u.Ok?);
    }
    if u.Err? {
      return Err(u.error);
    }
    UpdateStaysBelow(Some(data), n, steps, mdw.inner);
    StepKeeps(Operation.Update(n, steps), data.index, data.pos, Some(data), mdw.inner, true);
    return Ok(mdw.inner.value);
  }

  /** New data keeps what was stored about its key. */
  ghost predicate KeptKeys(stored: StoredKeys, n: nat, data: StoredKeys) {
    forall k :: k in data ==> k in stored && Keeps(Some(stored[k]), Some(data[k]), n) && PointersBelow(Some(data[k]), n)
  }

  /** Applies the steps of every key to its stored data. */
  method UpdateKeys<H>(stored: StoredKeys, keys: seq<MonitorKey>, n: nat, entries: seq<map<nat, ProofStep<H>>>,
                       ghost w: KeyWorld<H>)
    returns (r: Result<StoredKeys, Error>)
    requires |keys| == |entries| && forall i :: 0 <= i < |keys| ==> keys[i].searchKey in stored
    requires forall k :: k in stored ==> PointersBelow(Some(stored[k]), n)
    ensures r.Ok? <==> forall i :: 0 <= i < |keys| ==> CanUpdate(stored[keys[i].searchKey].ptrs, n, entries[i])
    ensures r.Ok? ==> UpdatedKeys(stored, keys, n, entries, |keys|, r.value) && KeptKeys(stored, n, r.value)
    ensures r != Err(NoReturn)
    ensures AllTrue(w, stored, keys, n, entries) ==> r.Ok? && TruthfulKeys(w, stored, r.value, n)
  {
    hide CanUpdate, UpdatedFrom, TruthfulSteps, Rising, Truthful, Keeps, UpdatedKeys, PointersBelow;
    var data: StoredKeys := map[];
    NothingUpdated(stored, keys, n, entries);
    for i := 0 to |keys|
      invariant KeptKeys(stored, n, data)
      invariant forall j :: 0 <= j < i ==> CanUpdate(stored[keys[j].searchKey].ptrs, n, entries[j])
      invariant UpdatedKeys(stored, keys, n, entries, i, data)
      invariant AllTrue(w, stored, keys, n, entries) ==> TruthfulKeys(w, stored, data, n)
    {
      var k := keys[i].searchKey;
      var u := UpdateKey(stored[k], n, entries[i], w.v(k));
      if u.Err? {
        return Err(u.error);
      }
      UpdatedOneMore(stored, keys, n, entries, i, data, k, u.value);
      data := data[k := u.value];
    }
    return Ok(data);
  }

  /** The positions on the full monitoring path of some key's entry. */
  ghost predicate OnSomePath(stored: StoredKeys, keys: seq<MonitorKey>, n: nat, m: nat, x: nat)
    requires m <= |keys|
  {
    exists i :: 0 <= i < m && x in PathOf(stored, keys[i], n)
  }

  ghost function PathOf(stored: StoredKeys, key: MonitorKey, n: nat): seq<nat> {
    if InRange(stored, key, n) then FullPath(key.entry, stored[key.searchKey].pos, n) else []
  }

  /** The key is known, and its entry has a full monitoring path in a tree of n entries. */
  ghost predicate InRange(stored: StoredKeys, key: MonitorKey, n: nat) {
    key.searchKey in stored && HasPath(key.entry, stored[key.searchKey].pos, n)
  }

  /** The steps of a key of a server that answers from the log: its leaves with the key's versions. */
  ghost predicate HonestKey<H>(hs: Hashes<H>, log: seq<H>, v: nat -> nat, stored: StoredKeys, key: MonitorKey,
                               proof: seq<ProofStep<H>>) {
    && InRange(stored, key, |log|)
    && var data := stored[key.searchKey];
       var path := FullPath(key.entry, data.pos, |log|);
       |path| == |proof| && forall j :: 0 <= j < |path| ==>
         path[j] < |log| && StepLeaf(hs, data.index, data.pos, proof[j]) == Ok((v(path[j]), log[path[j]]))
  }

  ghost predicate HonestKeys<H>(hs: Hashes<H>, w: KeyWorld<H>, stored: StoredKeys, keys: seq<MonitorKey>,
                                proofs: seq<seq<ProofStep<H>>>)
    requires |keys| == |proofs|
  {
    forall i :: 0 <= i < |keys| ==> HonestKey(hs, w.log, w.v(keys[i].searchKey), stored, keys[i], proofs[i])
  }

  /** The leaves recorded after processing a key. */
  ghost function Added<H>(hs: Hashes<H>, n: nat, stored: StoredKeys, key: MonitorKey, proof: seq<ProofStep<H>>,
                          leaves: map<nat, H>): map<nat, H>
    requires key.searchKey in stored
  {
    if |PathOf(stored, key, n)| == |proof|
    then WithLeaves(hs, stored[key.searchKey], PathOf(stored, key, n), proof, leaves) else leaves
  }

  /** The leaves recorded after the first m keys, if all of them are accepted. */
  ghost function LeavesAfter<H>(hs: Hashes<H>, n: nat, stored: StoredKeys, keys: seq<MonitorKey>,
                                proofs: seq<seq<ProofStep<H>>>, m: nat): Option<map<nat, H>>
    requires m <= |keys| == |proofs|
  {
    if m == 0 then Some(map[])
    else
      var key, proof := keys[m - 1], proofs[m - 1];
      match LeavesAfter(hs, n, stored, keys, proofs, m - 1)
      case None => None
      case Some(leaves) =>
        if InRange(stored, key, n) && Fits(hs, stored[key.searchKey], PathOf(stored, key, n), proof, leaves)
        then Some(Added(hs, n, stored, key, proof, leaves)) else None
  }

  /** Processing comes to a known key without a path. */
  ghost predicate Strands<H>(hs: Hashes<H>, n: nat, stored: StoredKeys, keys: seq<MonitorKey>,
                             proofs: seq<seq<ProofStep<H>>>)
    requires |keys| == |proofs|
  {
    exists i :: 0 <= i < |keys| && WithoutPath(stored, keys[i], n) && LeavesAfter(hs, n, stored, keys, proofs, i).Some?
  }

  lemma {:induction false} NoneAfter<H>(hs: Hashes<H>, n: nat, stored: StoredKeys, keys: seq<MonitorKey>,
                                        proofs: seq<seq<ProofStep<H>>>, i: nat, j: nat)
    requires i <= j <= |keys| == |proofs| && LeavesAfter(hs, n, stored, keys, proofs, i).None?
    ensures LeavesAfter(hs, n, stored, keys, proofs, j).None?
    decreases j
  {
    hide Fits, InRange, Added, PathOf;
    if i < j {
      NoneAfter(hs, n, stored, keys, proofs, i, j - 1);
    }
  }

  /** A key refused for another reason is never got past. */
  lemma RefusedBefore<H>(hs: Hashes<H>, n: nat, stored: StoredKeys, keys: seq<MonitorKey>,
                         proofs: seq<seq<ProofStep<H>>>, i: nat)
    requires i < |keys| == |proofs| && !WithoutPath(stored, keys[i], n)
    requires forall j :: 0 <= j < i ==> InRange(stored, keys[j], n)
    requires LeavesAfter(hs, n, stored, keys, proofs, i + 1).None?
    ensures !Strands(hs, n, stored, keys, proofs)
  {
    hide LeavesAfter;
    forall j | 0 <= j < |keys| && WithoutPath(stored, keys[j], n)
      ensures LeavesAfter(hs, n, stored, keys, proofs, j).None?
    {
      if j < i {
        assert InRange(stored, keys[j], n);
      }
      NoneAfter(hs, n, stored, keys, proofs, i + 1, j);
    }
  }

  lemma StrandsAt<H>(hs: Hashes<H>, n: nat, stored: StoredKeys, keys: seq<MonitorKey>,
                     proofs: seq<seq<ProofStep<H>>>, i: nat)
    requires i < |keys| == |proofs| && WithoutPath(stored, keys[i], n)
    requires LeavesAfter(hs, n, stored, keys, proofs, i).Some?
    ensures Strands(hs, n, stored, keys, proofs)
  {
    hide LeavesAfter, WithoutPath;
  }

  lemma NoLeaves<H>(hs: Hashes<H>, n: nat, stored: StoredKeys, keys: seq<MonitorKey>,
                    proofs: seq<seq<ProofStep<H>>>)
    requires |keys| == |proofs|
    ensures LeavesAfter(hs, n, stored, keys, proofs, 0) == Some(map[])
  {
  }

  lemma NoneStranded<H>(hs: Hashes<H>, n: nat, stored: StoredKeys, keys: seq<MonitorKey>,
                        proofs: seq<seq<ProofStep<H>>>)
    requires |keys| == |proofs| && forall j :: 0 <= j < |keys| ==> InRange(stored, keys[j], n)
    ensures !Strands(hs, n, stored, keys, proofs)
  {
    hide LeavesAfter, HasPath;
  }

  lemma NextLeaves<H>(hs: Hashes<H>, n: nat, stored: StoredKeys, keys: seq<MonitorKey>,
                      proofs: seq<seq<ProofStep<H>>>, i: nat, leaves: map<nat, H>)
    requires i < |keys| == |proofs| && LeavesAfter(hs, n, stored, keys, proofs, i) == Some(leaves)
    ensures LeavesAfter(hs, n, stored, keys, proofs, i + 1) ==
      if InRange(stored, keys[i], n) &&
         Fits(hs, stored[keys[i].searchKey], PathOf(stored, keys[i], n), proofs[i], leaves)
      then Some(Added(hs, n, stored, keys[i], proofs[i], leaves)) else None
  {
    hide Fits, InRange, Added, PathOf;
  }

  /** A known key on whose entry the source panics or never returns. */
  ghost predicate WithoutPath(stored: StoredKeys, key: MonitorKey, n: nat) {
    key.searchKey in stored && !HasPath(key.entry, stored[key.searchKey].pos, n)
  }

  ghost predicate FromLog<H>(log: seq<H>, leaves: map<nat, H>) {
    forall x :: x in leaves ==> x < |log| && leaves[x] == log[x]
  }

  lemma HonestFits<H>(hs: Hashes<H>, log: seq<H>, v: nat -> nat, stored: StoredKeys, key: MonitorKey,
                      proof: seq<ProofStep<H>>,
                      leaves: map<nat, H>)
    requires HonestKey(hs, log, v, stored, key, proof) && FromLog(log, leaves)
    ensures InRange(stored, key, |log|)
    ensures Fits(hs, stored[key.searchKey], PathOf(stored, key, |log|), proof, leaves)
  {
    hide StepLeaf, FullPath;
  }

  /** Processing honest steps records the log's leaves and the key's versions. */
  lemma HonestLeaves<H>(hs: Hashes<H>, log: seq<H>, v: nat -> nat, stored: StoredKeys, key: MonitorKey,
                        proof: seq<ProofStep<H>>,
                        before: map<nat, H>, leaves: map<nat, H>, steps: map<nat, ProofStep<H>>)
    requires HonestKey(hs, log, v, stored, key, proof) && FromLog(log, before) && Grows(before, leaves)
    requires Monitored(hs, |log|, stored[key.searchKey], key.entry, steps, leaves)
    requires EntryOf(PathOf(stored, key, |log|), proof, steps)
    requires forall x :: x in leaves <==> x in before || x in PathOf(stored, key, |log|)
    ensures FromLog(log, leaves) && TruthfulSteps(steps, v, stored[key.searchKey].pos)
  {
    hide StepLeaf, FullPath, HasPath;
    var data := stored[key.searchKey];
    var path := FullPath(key.entry, data.pos, |log|);
    forall x | x in steps ensures steps[x].prefix.Some? && steps[x].prefix.value.counter == v(x) {
      var j :| 0 <= j < |path| && path[j] == x;
      StepCounter(hs, data.index, data.pos, proof[j]);
    }
    forall x | x in leaves ensures x < |log| && leaves[x] == log[x] {
      if x !in before {
        var j :| 0 <= j < |path| && path[j] == x;
      }
    }
  }

  /** Processes the proofs of all keys. */
  method ProcessAll<H(==)>(hs: Hashes<H>, n: nat, stored: StoredKeys, keys: seq<MonitorKey>,
                           proofs: seq<seq<ProofStep<H>>>,
                           ghost w: KeyWorld<H>)
    returns (r: Result<(map<nat, H>, seq<map<nat, ProofStep<H>>>), Error>)
    requires |keys| == |proofs|
    ensures r == Err(NoReturn) <==> Strands(hs, n, stored, keys, proofs)
    ensures r.Ok? <==> LeavesAfter(hs, n, stored, keys, proofs, |keys|).Some?
    ensures r.Ok? ==> LeavesAfter(hs, n, stored, keys, proofs, |keys|).value == r.value.0
    ensures r.Ok? ==> forall i :: 0 <= i < |keys| ==> InRange(stored, keys[i], n)
    ensures r.Ok? ==>
      var (leaves, entries) := r.value;
      && |entries| == |keys| && (forall x :: x in leaves ==> x < n)
      && forall i :: 0 <= i < |keys| ==>
           MonitoredKey(hs, n, stored, keys[i], entries[i], leaves)
    ensures r.Ok? ==> forall i :: 0 <= i < |keys| ==> EntryOf(PathOf(stored, keys[i], n), proofs[i], r.value.1[i])
    ensures r.Ok? ==> forall x :: x in r.value.0 <==> OnSomePath(stored, keys, n, |keys|, x)
    ensures |w.log| == n && HonestKeys(hs, w, stored, keys, proofs) ==>
      && r.Ok? && FromLog(w.log, r.value.0)
      && forall i :: 0 <= i < |keys| ==>
           TrueEntry(w, stored, keys[i], r.value.1[i])
  {
    hide Monitored, StepLeaf, FullPath, Grows, Fits, StepsOf, HonestKey, HasPath, TruthfulSteps, EntryOf, PathOf,
         LeavesAfter, Strands, Added;
    ghost var honest := |w.log| == n && HonestKeys(hs, w, stored, keys, proofs);
    var acc := new MonitorProofAcc<H>(hs, n);
    NoLeaves(hs, n, stored, keys, proofs);
    for i := 0 to |keys|
      invariant acc.hs == hs && acc.treeSize == n && |acc.entries| == i && (forall x :: x in acc.leaves ==> x < n)
      invariant forall j :: 0 <= j < i ==>
        MonitoredKey(hs, n, stored, keys[j], acc.entries[j], acc.leaves)
      invariant forall x :: x in acc.leaves <==> OnSomePath(stored, keys, n, i, x)
      invariant LeavesAfter(hs, n, stored, keys, proofs, i) == Some(acc.leaves)
      invariant forall j :: 0 <= j < i ==> InRange(stored, keys[j], n)
      invariant forall j :: 0 <= j < i ==> EntryOf(PathOf(stored, keys[j], n), proofs[j], acc.entries[j])
      invariant honest ==> FromLog(w.log, acc.leaves)
      invariant honest ==> forall j :: 0 <= j < i ==>
        TrueEntry(w, stored, keys[j], acc.entries[j])
    {
      ghost var before, was := acc.leaves, acc.entries;
      NextLeaves(hs, n, stored, keys, proofs, i, before);
      if honest {
        assert HonestKey(hs, w.log, w.v(keys[i].searchKey), stored, keys[i], proofs[i]);
        HonestFits(hs, w.log, w.v(keys[i].searchKey), stored, keys[i], proofs[i], acc.leaves);
      }
      var p := acc.Process(stored, keys[i], proofs[i]);
      if p.Err? {
        if WithoutPath(stored, keys[i], n) {
          StrandsAt(hs, n, stored, keys, proofs, i);
        } else {
          RefusedBefore(hs, n, stored, keys, proofs, i);
        }
        NoneAfter(hs, n, stored, keys, proofs, i + 1, |keys|);
        return Err(p.error);
      }
      forall j | 0 <= j < i ensures MonitoredKey(hs, n, stored, keys[j], acc.entries[j], acc.leaves) {
        assert acc.entries[..i][j] == was[j];
        MonitoredGrows(hs, n, stored[keys[j].searchKey], keys[j].entry, was[j], before, acc.leaves);
      }
      forall j | 0 <= j < i ensures EntryOf(PathOf(stored, keys[j], n), proofs[j], acc.entries[j]) {
        assert acc.entries[..i][j] == was[j];
      }
      PathsBelow(stored, keys, n, i, acc.leaves, before);
      if honest {
        HonestLeaves(hs, w.log, w.v(keys[i].searchKey), stored, keys[i], proofs[i], before, acc.leaves, acc.entries[i]);
        forall j | 0 <= j < i ensures TrueEntry(w, stored, keys[j], acc.entries[j]) {
          assert acc.entries[..i][j] == was[j];
        }
      }
    }
    NoneStranded(hs, n, stored, keys, proofs);
    return Ok((acc.leaves, acc.entries));
  }

  lemma PathsBelow<H>(stored: StoredKeys, keys: seq<MonitorKey>, n: nat, i: nat, leaves: map<nat, H>,
                      before: map<nat, H>)
    requires i < |keys| && InRange(stored, keys[i], n)
    requires forall x :: x in before ==> x < n
    requires forall x :: x in before <==> OnSomePath(stored, keys, n, i, x)
    requires forall x :: x in leaves <==> x in before || x in PathOf(stored, keys[i], n)
    ensures forall x :: x in leaves ==> x < n
    ensures forall x :: x in leaves <==> OnSomePath(stored, keys, n, i + 1, x)
  {
    hide FullPath, Increasing, OnSomePath;
    FullPathShape(keys[i].entry, stored[keys[i].searchKey].pos, n);
    forall x ensures x in leaves <==> OnSomePath(stored, keys, n, i + 1, x) {
      OnePathMore(stored, keys, n, i, x);
    }
  }

  lemma OnePathMore(stored: StoredKeys, keys: seq<MonitorKey>, n: nat, i: nat, x: nat)
    requires i < |keys|
    ensures OnSomePath(stored, keys, n, i + 1, x) <==>
            OnSomePath(stored, keys, n, i, x) || x in PathOf(stored, keys[i], n)
  {
    hide PathOf;
  }

  /** The inclusion proof of a server that answers from the log: the log's hashes at the copath of the
      monitored positions, or just its root when there are none. */
  ghost predicate HonestMonitorInclusion<H>(h: TreeHash<H>, log: seq<H>, stored: StoredKeys, keys: seq<MonitorKey>,
                                            inclusion: seq<Bytes<H>>)
    requires log != []
  {
    var monitored := set x: nat | x < |log| && OnSomePath(stored, keys, |log|, |keys|, x);
    if monitored == {} then inclusion == [Hash(LogRoot(h, log))] else InclusionOf(h, log, monitored, inclusion)
  }

  /** A response that should be accepted: honest steps and inclusion proof from the world's log, a tree
      head acceptable for the log's root, and true stored data. */
  ghost predicate HonestMonitor<H>(hs: Hashes<H>, checks: Checks<H>, keys: seq<MonitorKey>, fth: FullTreeHead<H>,
                                   proofs: seq<seq<ProofStep<H>>>, inclusion: seq<Bytes<H>>, last: Option<Rooted<H>>,
                                   distinguished: Rooted<H>, stored: StoredKeys, w: KeyWorld<H>) {
    && w.log != [] && fth.head.Some? && fth.head.value.size == |w.log| && |keys| == |proofs|
    && (forall k :: k in stored ==> Rising(w.v(k), stored[k].pos)) && TruthfulKeys(w, stored, stored, |w.log|)
    && HonestKeys(hs, w, stored, keys, proofs)
    && HonestMonitorInclusion(hs.tree, w.log, stored, keys, inclusion)
    && Accepted(hs.tree, checks, fth, LogRoot(hs.tree, w.log), last, Some(distinguished))
  }

  /** Nothing about acceptance is needed to be honest: a head of the world's log, signed and fresh, with the
      log's own hashes as proofs, will do. */
  lemma HonestServer<H>(hs: Hashes<H>, checks: Checks<H>, keys: seq<MonitorKey>, fth: FullTreeHead<H>,
                        proofs: seq<seq<ProofStep<H>>>, inclusion: seq<Bytes<H>>, last: Option<Rooted<H>>,
                        distinguished: Rooted<H>, stored: StoredKeys, w: KeyWorld<H>)
    requires HonestHead(hs.tree, checks, w.log, fth, last, Some(distinguished)) && |keys| == |proofs|
    requires (forall k :: k in stored ==> Rising(w.v(k), stored[k].pos)) && TruthfulKeys(w, stored, stored, |w.log|)
    requires HonestKeys(hs, w, stored, keys, proofs) && HonestMonitorInclusion(hs.tree, w.log, stored, keys, inclusion)
    ensures HonestMonitor(hs, checks, keys, fth, proofs, inclusion, last, distinguished, stored, w)
  {
    hide HonestFrom, HonestAuditor, HonestKeys, HonestMonitorInclusion, TruthfulKeys, Accepted;
    HonestHeadIsAccepted(hs.tree, checks, w.log, fth, last, Some(distinguished));
  }

  /** The log's own leaves and an honest inclusion proof make up the log's root. */
  lemma HonestCandidate<H(!new)>(hs: Hashes<H>, log: seq<H>, stored: StoredKeys, keys: seq<MonitorKey>,
                                 leaves: map<nat, H>, inclusion: seq<Bytes<H>>)
    requires log != [] && FromLog(log, leaves)
    requires forall x :: x in leaves <==> OnSomePath(stored, keys, |log|, |keys|, x)
    requires HonestMonitorInclusion(hs.tree, log, stored, keys, inclusion)
    ensures HashList(inclusion).Ok?
    ensures CandidateRoot(hs, |log|, leaves, HashList(inclusion).value, LogRoot(hs.tree, log))
  {
    hide BatchRoot, CopathIds, HashesAt, AllInLog, LogRoot, OnSomePath;
    var monitored := set x: nat | x < |log| && OnSomePath(stored, keys, |log|, |keys|, x);
    assert leaves.Keys == monitored;
    if leaves != map[] {
      var ids, values := SomePairs(leaves);
      PairsAreLeafList(leaves, ids, values, |log|);
      assert values == LeavesAt(log, ids);
      BatchProofAccepts(hs.tree, log, ids);
    }
  }

  /** The steps and leaves are those of the response, and with its inclusion proof they make up the root. */
  ghost predicate EvaluatedMonitor<H(!new)>(hs: Hashes<H>, stored: StoredKeys, keys: seq<MonitorKey>, n: nat,
                                            proofs: seq<seq<ProofStep<H>>>, inclusion: seq<Bytes<H>>, root: H,
                                            entries: seq<map<nat, ProofStep<H>>>, seen: map<nat, H>) {
    && |entries| == |keys| == |proofs|
    && LeavesAfter(hs, n, stored, keys, proofs, |keys|) == Some(seen) && (forall x :: x in seen ==> x < n)
    && (forall i :: 0 <= i < |keys| ==> InRange(stored, keys[i], n))
    && (forall i :: 0 <= i < |keys| ==> EntryOf(PathOf(stored, keys[i], n), proofs[i], entries[i]))
    && (forall i :: 0 <= i < |keys| ==> MonitoredKey(hs, n, stored, keys[i], entries[i], seen))
    && HashList(inclusion).Ok? && CandidateRoot(hs, n, seen, HashList(inclusion).value, root)
  }

  /** Everything an accepted monitor response has passed, and what is kept of it. */
  ghost predicate AcceptedMonitor<H(!new)>(hs: Hashes<H>, checks: Checks<H>, keys: seq<MonitorKey>,
                                           fth: FullTreeHead<H>, proofs: seq<seq<ProofStep<H>>>,
                                           inclusion: seq<Bytes<H>>, last: Option<Rooted<H>>, distinguished: Rooted<H>,
                                           stored: StoredKeys, head: Rooted<H>, data: StoredKeys,
                                           entries: seq<map<nat, ProofStep<H>>>, seen: map<nat, H>) {
    && fth.head == Some(head.head) && Accepted(hs.tree, checks, fth, head.root, last, Some(distinguished))
    && EvaluatedMonitor(hs, stored, keys, head.head.size, proofs, inclusion, head.root, entries, seen)
    && UpdatedKeys(stored, keys, head.head.size, entries, |keys|, data) && KeptKeys(stored, head.head.size, data)
  }

  lemma {:induction false} LastRequestOf(keys: seq<MonitorKey>, m: nat, k: SearchKey) returns (i: nat)
    requires m <= |keys| && exists i :: 0 <= i < m && keys[i].searchKey == k
    ensures i < m && keys[i].searchKey == k && LastRequest(keys, m, i)
    decreases m
  {
    if keys[m - 1].searchKey == k {
      i := m - 1;
    } else {
      i := LastRequestOf(keys, m - 1, k);
    }
  }

  /** Data updated from true data with true steps is true. */
  lemma UpdatedKeysAreTrue<H>(w: KeyWorld<H>, stored: StoredKeys, keys: seq<MonitorKey>, n: nat,
                              entries: seq<map<nat, ProofStep<H>>>, data: StoredKeys)
    requires |keys| == |entries| && AllTrue(w, stored, keys, n, entries)
    requires UpdatedKeys(stored, keys, n, entries, |keys|, data)
    ensures TruthfulKeys(w, stored, data, n)
  {
    hide Truthful, TruthfulSteps, Rising, IsUpdate, CanUpdate, LastRequest;
    forall k | k in data ensures k in stored && Truthful(Some(data[k]), stored[k].index, stored[k].pos, n, w.v(k)) {
      var i := LastRequestOf(keys, |keys|, k);
      var d := stored[k];
      UpdatePossible(d.ptrs, n, entries[i], data[k].ptrs);
      HonestStep(Operation.Update(n, entries[i]), d.index, d.pos, n, w.v(k), Some(d), Some(data[k]), true);
    }
  }

  /** An accepted response about a world's log keeps true data true; or response and log exhibit a
      collision. */
  lemma AcceptedMonitorIsTrue<H(!new)>(hs: Hashes<H>, checks: Checks<H>, keys: seq<MonitorKey>, fth: FullTreeHead<H>,
                                       proofs: seq<seq<ProofStep<H>>>, inclusion: seq<Bytes<H>>,
                                       last: Option<Rooted<H>>, distinguished: Rooted<H>, stored: StoredKeys,
                                       head: Rooted<H>, data: StoredKeys, entries: seq<map<nat, ProofStep<H>>>,
                                       seen: map<nat, H>, w: KeyWorld<H>)
    requires AcceptedMonitor(hs, checks, keys, fth, proofs, inclusion, last, distinguished, stored, head, data, entries,
                             seen)
    requires AboutKeys(hs, w, stored, head.head.size, head.root)
    requires !MonitorClash(hs, w, stored, keys, entries, seen, inclusion)
    requires TruthfulKeys(w, stored, stored, head.head.size)
    ensures TruthfulKeys(w, stored, data, head.head.size)
  {
    hide Accepted, AboutKeys, MonitorClash, TruthfulKeys, LeavesAfter, CandidateRoot, UpdatedKeys, KeptKeys,
         MonitoredKey, AllTrue, EntryOf, InRange, PathOf, HashList;
    KeysAreTrue(hs, w, stored, keys, head.head.size, head.root, entries, seen, inclusion);
    UpdatedKeysAreTrue(w, stored, keys, head.head.size, entries, data);
  }

  /** Verifies a monitor response. Success is what `AcceptedMonitor` says: the new data of every requested key
      is the stored data with its pointers moved along that key's steps (`entries`), whose leaves (`seen`) make
      up the root. When the response is about a world's log, the updated data of every key is true if the
      stored data was, and once the head is accepted (`reached`) the update cannot fail; or response and log
      exhibit a collision of the hash functions. Honest responses are accepted, whatever the hash functions. */
  method Verify<H(==, !new)>(hs: Hashes<H>, checks: Checks<H>, keys: seq<MonitorKey>, fth: Option<FullTreeHead<H>>,
                             proofs: seq<seq<ProofStep<H>>>, inclusion: seq<Bytes<H>>, last: Option<Rooted<H>>,
                             distinguished: Rooted<H>, stored: StoredKeys, ghost w: KeyWorld<H>)
    returns (r: Result<(Rooted<H>, StoredKeys), Error>, ghost reached: Option<Rooted<H>>,
             ghost entries: seq<map<nat, ProofStep<H>>>, ghost seen: map<nat, H>)
    requires forall k :: k in stored ==> last.Some? && PointersBelow(Some(stored[k]), last.value.head.size)
    ensures r == Err(NoReturn) <==>
      && |keys| == |proofs| && fth.Some? && fth.value.head.Some?
      && Strands(hs, fth.value.head.value.size, stored, keys, proofs)
    ensures reached.Some? ==> fth.Some? && fth.value.head == Some(reached.value.head)
    ensures reached.Some? ==> Accepted(hs.tree, checks, fth.value, reached.value.root, last, Some(distinguished))
    ensures reached.Some? ==>
      EvaluatedMonitor(hs, stored, keys, reached.value.head.size, proofs, inclusion, reached.value.root, entries, seen)
    ensures r.Ok? ==> fth.Some? && reached == Some(r.value.0)
    ensures r.Ok? ==>
      AcceptedMonitor(hs, checks, keys, fth.value, proofs, inclusion, last, distinguished, stored, r.value.0, r.value.1,
                      entries, seen)
    ensures r.Ok? ==>
      checks.serverSigned(r.value.0.head, r.value.0.root) && checks.serverFresh(r.value.0.head.timestamp)
    ensures r.Ok? ==> fth.value.auditors.Some? && forall a :: a in fth.value.auditors.value ==>
      && a.head.Some? && checks.auditorFresh(a.head.value.timestamp)
      && a.head.value.size <= r.value.0.head.size <= a.head.value.size + 10_000_000
      && (a.root.None? ==>
           a.head.value.size == r.value.0.head.size && checks.auditorSigned(a.key, a.head.value, r.value.0.root))
      && (a.root.Some? ==>
           a.root.value.Hash? && checks.auditorSigned(a.key, a.head.value, a.root.value.value))
    ensures reached.Some? && AboutKeys(hs, w, stored, reached.value.head.size, reached.value.root) ==>
      || MonitorClash(hs, w, stored, keys, entries, seen, inclusion)
      || (TruthfulKeys(w, stored, stored, reached.value.head.size) ==>
           r.Ok? && TruthfulKeys(w, stored, r.value.1, reached.value.head.size))
    ensures fth.Some? ==>
      (HonestMonitor(hs, checks, keys, fth.value, proofs, inclusion, last, distinguished, stored, w) ==>
        r.Ok? && TruthfulKeys(w, stored, r.value.1, fth.value.head.value.size))
  {
    hide HonestKeys, FromLog, HashList, LogRoot, HonestMonitorInclusion, OnSomePath, Accepted, AboutKeys, TruthfulKeys,
         Monitored, CandidateRoot, PointersBelow, StepLeaf, FullPath, TruthfulSteps, HasPath, Keeps, UpdatedKeys,
         CanUpdate, PathOf, InRange, KeptKeys, WithoutPath, EntryOf, MonitorClash, Strands, LeavesAfter;
    reached, entries, seen := None, [], map[];
    if |keys| != |proofs| {
      return Err(BadData), reached, entries, seen;
    }
    if fth.None? {
      return Err(RequiredFieldMissing), reached, entries, seen;
    }
    if fth.value.head.None? {
      return Err(RequiredFieldMissing), reached, entries, seen;
    }
    var n := fth.value.head.value.size;
    ghost var honest := HonestMonitor(hs, checks, keys, fth.value, proofs, inclusion, last, distinguished, stored, w);
    var processed := ProcessAll(hs, n, stored, keys, proofs, w);
    if processed.Err? {
      return Err(processed.error), reached, entries, seen;
    }
    var (leaves, steps) := processed.value;
    entries, seen := steps, leaves;
    var hashes := HashList(inclusion);
    if honest {
      HonestCandidate(hs, w.log, stored, keys, leaves, inclusion);
    }
    if hashes.Err? {
      return Err(BadData), reached, entries, seen;
    }
    var root := EvaluateRoot(hs, n, leaves, hashes.value);
    if root.Err? {
      return Err(root.error), reached, entries, seen;
    }
    var head := VerifyFullTreeHead(hs.tree, checks, fth.value, root.value, last, Some(distinguished));
    if head.Err? {
      return Err(head.error), reached, entries, seen;
    }
    reached := Some(head.value);
    forall k | k in stored ensures PointersBelow(Some(stored[k]), n) {
      StillBelow(hs.tree, checks, fth.value, root.value, Stored(last, Some(stored[k])), Some(distinguished));
    }
    var updated := UpdateKeys(stored, keys, n, steps, w);
    if AboutKeys(hs, w, stored, n, root.value) && TruthfulKeys(w, stored, stored, n) &&
       !MonitorClash(hs, w, stored, keys, steps, leaves, inclusion) {
      KeysAreTrue(hs, w, stored, keys, n, root.value, steps, leaves, inclusion);
    }
    if updated.Err? {
      return Err(updated.error), reached, entries, seen;
    }
    return Ok((head.value, updated.value)), reached, entries, seen;
  }

  lemma KeysAreTrue<H(!new)>(hs: Hashes<H>, w: KeyWorld<H>, stored: StoredKeys, keys: seq<MonitorKey>, n: nat, root: H,
                             entries: seq<map<nat, ProofStep<H>>>, leaves: map<nat, H>, inclusion: seq<Bytes<H>>)
    requires AboutKeys(hs, w, stored, n, root) && TruthfulKeys(w, stored, stored, n) && |keys| == |entries|
    requires HashList(inclusion).Ok? && !MonitorClash(hs, w, stored, keys, entries, leaves, inclusion)
    requires CandidateRoot(hs, n, leaves, HashList(inclusion).value, root) && forall x :: x in leaves ==> x < n
    requires forall i :: 0 <= i < |keys| ==>
      MonitoredKey(hs, n, stored, keys[i], entries[i], leaves)
    ensures AllTrue(w, stored, keys, n, entries)
  {
    hide Monitored, CandidateRoot, TruthfulKeys, LeavesClash, EntryClash, IsLogOf, LogRoot, TruthfulSteps, Rising,
         HashList;
    forall i | 0 <= i < |keys| ensures TrueEntry(w, stored, keys[i], entries[i]) {
      MonitoredIsTrue(hs, w, stored, keys[i].searchKey, n, root, keys[i].entry, entries[i], leaves,
                      HashList(inclusion).value);
    }
  }
}
