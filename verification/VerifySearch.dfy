/** The whole verification of a search response: proof, commitment, tree head and stored data
    (verify.rs, `verify_search_internal`). */
module VerifySearch {
  import opened Wrappers
  import opened Merkle
  import opened LogProofs
  import opened ImplicitTree
  import opened Guide
  import opened Prefix
  import opened Search
  import opened TreeHeads
  import opened Monitoring

  /** What the client keeps: the last accepted head and the data of the key, with all pointers below it. */
  datatype Stored<+H> = Stored(last: Option<Rooted<H>>, data: Option<MonitoringData>)

  ghost predicate PointersBelow(data: Option<MonitoringData>, n: nat) {
    data.Some? ==> forall p :: p in data.value.ptrs ==> data.value.pos <= p < n
  }

  ghost predicate StoredValid<H>(s: Stored<H>) {
    s.data.Some? ==> s.last.Some? && PointersBelow(s.data, s.last.value.head.size)
  }

  datatype Found<+H> = Found(head: Rooted<H>, id: nat, index: nat, data: Option<MonitoringData>)

  /** The response is about the log of this world, whose root it computed. */
  ghost predicate About<H>(hs: Hashes<H>, w: World<H>, index: Index, pos: nat, n: nat, root: H) {
    && |w.log| == n > 0 && root == LogRoot(hs.tree, w.log) && IsLogOf(hs, w, index, pos) && Rising(w.v, pos)
  }

  /** The result of a search is recorded in three steps: monitoring starts if it should and has not, the
      result is checked against the pointers, and these are moved along the steps. */
  ghost predicate RememberedVia<H>(n: nat, index: Index, pos: nat, id: nat, version: nat, monitor: bool, always: bool,
                                   steps: map<nat, ProofStep<H>>, s0: Option<MonitoringData>,
                                   s1: Option<MonitoringData>, s2: Option<MonitoringData>,
                                   s3: Option<MonitoringData>, checkOk: bool, updateOk: bool) {
    && (if monitor || always then Step(Operation<H>.Start(n, id, version, monitor), index, pos, s0, s1, true)
        else s1 == s0)
    && Step(Operation<H>.Check(n, id, version, monitor), index, pos, s1, s2, checkOk)
    && (checkOk ==> Step(Operation.Update(n, steps), index, pos, s2, s3, updateOk))
  }

  /** After the proof: records the result in the stored data. */
  method Remember<H>(data: Option<MonitoringData>, n: nat, index: Index, pos: nat, id: nat, version: nat, monitor: bool,
                     always: bool, steps: map<nat, ProofStep<H>>)
    returns (r: Result<Option<MonitoringData>, Error>, ghost s1: Option<MonitoringData>,
             ghost s2: Option<MonitoringData>, ghost s3: Option<MonitoringData>,
             ghost checkOk: bool, ghost updateOk: bool)
    requires pos <= id < n && PointersBelow(data, n)
    ensures RememberedVia(n, index, pos, id, version, monitor, always, steps, data, s1, s2, s3, checkOk, updateOk)
    ensures r.Ok? <==> checkOk && updateOk
    ensures r.Ok? ==> r.value == s3 && PointersBelow(r.value, n)
    ensures r != Err(NoReturn)
  {
    hide Moved, CanUpdate, IsUpdate, FirstTracked;
    var mdw := new MonitoringDataWrapper(data);
    if monitor || always {
      mdw.StartMonitoring(index, pos, id, version, monitor);
    }
    s1 := mdw.inner;
    var c := mdw.CheckSearchConsistency(n, index, pos, id, version, monitor);
    s2, s3, checkOk, updateOk := mdw.inner, mdw.inner, c.Ok?, false;
    if c.Err? {
      return Err(c.error), s1, s2, s3, checkOk, updateOk;
    }
    var u := mdw.Update(n, steps);
    s3, updateOk := mdw.inner, u.Ok?;
    if u.Err? {
      return Err(u.error), s1, s2, s3, checkOk, updateOk;
    }
    UpdateStaysBelow(s2, n, steps, mdw.inner);
    return Ok(mdw.inner), s1, s2, s3, checkOk, updateOk;
  }

  /** What a recorded result leaves in the stored data: nothing only if nothing was stored and monitoring
      was not asked for; otherwise every earlier mapping and the result are tracked, as far up as the steps
      go, and the key is owned iff it was or the caller says so. */
  ghost predicate Remembered<H>(n: nat, index: Index, pos: nat, id: nat, version: nat, monitor: bool, always: bool,
                                steps: map<nat, ProofStep<H>>, before: Option<MonitoringData>,
                                after: Option<MonitoringData>) {
    && (after.None? <==> before.None? && !monitor && !always)
    && Keeps(before, after, n)
    && (after.Some? ==>
         && after.value.index == index && after.value.pos == pos
         && (after.value.owned <==> monitor || (before.Some? && before.value.owned))
         && Tracked(after.value.ptrs, id, version, n)
         && forall q :: q in after.value.ptrs ==> MonitoringPath(q, n) == [] || MonitoringPath(q, n)[0] !in steps)
  }

  lemma RememberedIs<H>(n: nat, index: Index, pos: nat, id: nat, version: nat, monitor: bool, always: bool,
                        steps: map<nat, ProofStep<H>>, s0: Option<MonitoringData>, s1: Option<MonitoringData>,
                        s2: Option<MonitoringData>, s3: Option<MonitoringData>)
    requires RememberedVia(n, index, pos, id, version, monitor, always, steps, s0, s1, s2, s3, true, true)
    ensures Remembered(n, index, pos, id, version, monitor, always, steps, s0, s3)
  {
    hide Moved, CanUpdate, IsUpdate, FirstTracked, Tracked, MonitoringPath;
    KeepsItself(s0, n);
    if s1 != s0 {
      StepKeeps(Operation<H>.Start(n, id, version, monitor), index, pos, s0, s1, true);
    }
    StepKeeps(Operation<H>.Check(n, id, version, monitor), index, pos, s1, s2, true);
    StepKeeps(Operation.Update(n, steps), index, pos, s2, s3, true);
    CheckTracks<H>(n, id, version, monitor, index, pos, s1, s2);
    KeepsTransitive(s0, s1, s2, n, n);
    KeepsTransitive(s0, s2, s3, n, n);
    if s2.Some? {
      UpdateSettles(s2.value.ptrs, n, steps, s3.value.ptrs);
      TrackedOn(s2.value.ptrs, s3.value.ptrs, id, version, n, n);
    }
  }

  lemma UpdateStaysBelow<H>(s: Option<MonitoringData>, n: nat, steps: map<nat, ProofStep<H>>,
                            s': Option<MonitoringData>)
    requires PointersBelow(s, n)
    requires if s.None? then s' == None else
      && s'.Some? && s' == Some(s.value.(ptrs := s'.value.ptrs))
      && IsUpdate(s.value.ptrs, s.value.ptrs.Keys, n, steps, s'.value.ptrs)
    ensures PointersBelow(s', n)
  {
    hide Moved;
    if s.Some? {
      var ptrs := s.value.ptrs;
      forall q | q in s'.value.ptrs ensures s.value.pos <= q < n {
        var p :| p in ptrs.Keys && Moved(p, ptrs[p], n, steps).value.0 == q;
        MovedGoesUp(p, ptrs[p], n, steps);
      }
    }
  }

  /** Steps accepted against the world's log carry its versions. */
  lemma StepsAreTrue<H>(hs: Hashes<H>, w: World<H>, index: Index, wanted: Option<nat>, n: nat, proof: SearchProof<H>,
                        o: Outcome<H>, f: seq<VersionedId>, t: nat, leaves: map<nat, H>, ids: seq<nat>,
                        values: seq<H>, steps: map<nat, ProofStep<H>>)
    requires About(hs, w, index, proof.pos, n, o.root) && f != [] && !SearchClash(hs, w, index, proof, f, ids, values)
    requires Certified(hs, index, wanted, n, proof, o, f, t, leaves, ids, values) && Taken(proof, f, steps)
    ensures TruthfulSteps(steps, w.v, proof.pos)
  {
    hide SearchClash, IsLogOf, LogRoot, BatchRoot, PairsOf, Settles, Rising;
    CertifiedAgrees(hs, w, index, wanted, proof, o, f, t, leaves, ids, values);
    forall x | x in steps ensures steps[x].prefix.Some? && steps[x].prefix.value.counter == w.v(x) {
      var i :| 0 <= i < |f| && f[i].id == x;
      StepCounter(hs, index, proof.pos, proof.steps[i]);
    }
  }

  lemma StepCounter<H>(hs: Hashes<H>, index: Index, pos: nat, step: ProofStep<H>)
    requires StepLeaf(hs, index, pos, step).Ok?
    ensures step.prefix.Some? && step.prefix.value.counter == StepLeaf(hs, index, pos, step).value.0
  {
  }

  /** The result of a certified search is one of its steps. */
  lemma ResultStep<H>(hs: Hashes<H>, index: Index, wanted: Option<nat>, n: nat, proof: SearchProof<H>, o: Outcome<H>,
                      f: seq<VersionedId>, t: nat, leaves: map<nat, H>, ids: seq<nat>, values: seq<H>)
    requires Certified(hs, index, wanted, n, proof, o, f, t, leaves, ids, values)
    ensures o.index < |f| == |proof.steps| && proof.pos <= o.id < n && f[o.index] == VersionedId(o.id, t)
    ensures proof.steps[o.index].prefix.Some? && proof.steps[o.index].prefix.value.counter == t
  {
    hide BatchRoot, PairsOf, StepLeaf;
    StepCounter(hs, index, proof.pos, proof.steps[o.index]);
  }

  /** Everything the search has to do with a log. */
  lemma FoundIsTrue<H>(hs: Hashes<H>, w: World<H>, index: Index, wanted: Option<nat>, n: nat, proof: SearchProof<H>,
                       o: Outcome<H>, f: seq<VersionedId>, t: nat, leaves: map<nat, H>, ids: seq<nat>,
                       values: seq<H>, steps: map<nat, ProofStep<H>>)
    requires About(hs, w, index, proof.pos, n, o.root) && !SearchClash(hs, w, index, proof, f, ids, values)
    requires Certified(hs, index, wanted, n, proof, o, f, t, leaves, ids, values) && Taken(proof, f, steps)
    ensures IsLeast(w.v, proof.pos, n, Target(w.v, wanted, n), o.id)
    ensures o.index < |proof.steps| && proof.steps[o.index].commitment == Hash(w.c(o.id))
    ensures TruthfulSteps(steps, w.v, proof.pos) && t == w.v(o.id)
  {
    hide SearchClash, IsLogOf, LogRoot, BatchRoot, PairsOf, Settles, Recorded, Taken;
    ResultStep(hs, index, wanted, n, proof, o, f, t, leaves, ids, values);
    RisingIsNondecreasing(w.v, proof.pos, n);
    SearchIsSound(hs, w, index, wanted, proof, o, f, t, leaves, ids, values);
    CertifiedAgrees(hs, w, index, wanted, proof, o, f, t, leaves, ids, values);
    StepsAreTrue(hs, w, index, wanted, n, proof, o, f, t, leaves, ids, values, steps);
  }

  lemma RisingIsNondecreasing(v: nat -> nat, pos: nat, n: nat)
    requires Rising(v, pos)
    ensures Nondecreasing(v, pos, n)
  {
  }

  /** Remembering a true result keeps the stored data true, and cannot fail. */
  lemma RememberedIsTrue<H>(v: nat -> nat, n: nat, index: Index, pos: nat, id: nat, version: nat, monitor: bool,
                            always: bool,
                            steps: map<nat, ProofStep<H>>, s0: Option<MonitoringData>, s1: Option<MonitoringData>,
                            s2: Option<MonitoringData>, s3: Option<MonitoringData>, checkOk: bool, updateOk: bool)
    requires Rising(v, pos) && pos <= id < n && version == v(id) && TruthfulSteps(steps, v, pos)
    requires Truthful(s0, index, pos, n, v)
    requires RememberedVia(n, index, pos, id, version, monitor, always, steps, s0, s1, s2, s3, checkOk, updateOk)
    ensures checkOk && updateOk && Truthful(s3, index, pos, n, v)
  {
    hide Step, Truthful, Rising, TruthfulSteps;
    if s1 != s0 {
      HonestStep(Operation<H>.Start(n, id, version, monitor), index, pos, n, v, s0, s1, true);
    }
    HonestStep(Operation<H>.Check(n, id, version, monitor), index, pos, n, v, s1, s2, checkOk);
    HonestStep(Operation.Update(n, steps), index, pos, n, v, s2, s3, updateOk);
  }

  /** A response that should be accepted: an honest proof from the world's log, an opening of the
      commitment at the answer, a tree head acceptable for the log's root, and true stored data. */
  ghost predicate Honest<H>(hs: Hashes<H>, checks: Checks<H>, index: Index, wanted: Option<nat>, fth: FullTreeHead<H>,
                            proof: SearchProof<H>, opensTo: Bytes<H> -> bool, stored: Stored<H>,
                            distinguished: Option<Rooted<H>>, w: World<H>) {
    && w.log != [] && fth.head.Some? && fth.head.value.size == |w.log| && Rising(w.v, proof.pos)
    && var n, root := |w.log|, LogRoot(hs.tree, w.log);
       && HonestProof(hs, w, index, wanted, proof)
       && (forall id :: IsLeast(w.v, proof.pos, n, Target(w.v, wanted, n), id) ==> opensTo(Hash(w.c(id))))
       && Accepted(hs.tree, checks, fth, root, stored.last, distinguished)
       && Truthful(stored.data, index, proof.pos, n, w.v)
  }

  /** Nothing about acceptance is needed to be honest: a head of the world's log, signed and fresh, with the
      log's own hashes as proofs, will do. */
  lemma HonestServer<H>(hs: Hashes<H>, checks: Checks<H>, index: Index, wanted: Option<nat>, fth: FullTreeHead<H>,
                        proof: SearchProof<H>, opensTo: Bytes<H> -> bool, stored: Stored<H>,
                        distinguished: Option<Rooted<H>>, w: World<H>)
    requires HonestHead(hs.tree, checks, w.log, fth, stored.last, distinguished)
    requires Rising(w.v, proof.pos) && HonestProof(hs, w, index, wanted, proof)
    requires forall id :: IsLeast(w.v, proof.pos, |w.log|, Target(w.v, wanted, |w.log|), id) ==> opensTo(Hash(w.c(id)))
    requires Truthful(stored.data, index, proof.pos, |w.log|, w.v)
    ensures Honest(hs, checks, index, wanted, fth, proof, opensTo, stored, distinguished, w)
  {
    hide HonestFrom, HonestAuditor, HonestProof, Accepted;
    HonestHeadIsAccepted(hs.tree, checks, w.log, fth, stored.last, distinguished);
  }

  /** What holds of an answer that is true of the world: its position is the least with the version, its
      step opens the commitment there, and all steps have the world's versions. */
  ghost predicate TrueAnswer<H>(w: World<H>, n: nat, wanted: Option<nat>, proof: SearchProof<H>, o: Outcome<H>,
                                version: nat,
                                steps: map<nat, ProofStep<H>>)
    requires n > 0
  {
    && IsLeast(w.v, proof.pos, n, Target(w.v, wanted, n), o.id) && version == w.v(o.id)
    && o.index < |proof.steps| && proof.steps[o.index].commitment == Hash(w.c(o.id))
    && TruthfulSteps(steps, w.v, proof.pos)
  }

  /** The answer found in an honest proof is true, whatever the hash functions. */
  lemma HonestAnswerIsTrue<H>(hs: Hashes<H>, w: World<H>, index: Index, wanted: Option<nat>, proof: SearchProof<H>,
                              o: Outcome<H>,
                              f: seq<VersionedId>, t: nat, leaves: map<nat, H>, ids: seq<nat>, values: seq<H>,
                              steps: map<nat, ProofStep<H>>)
    requires HonestProof(hs, w, index, wanted, proof) && Answered(wanted, |w.log|, proof, w.v, f, t)
    requires Certified(hs, index, wanted, |w.log|, proof, o, f, t, leaves, ids, values) && Taken(proof, f, steps)
    ensures TrueAnswer(w, |w.log|, wanted, proof, o, t, steps)
  {
    hide BatchRoot, PairsOf, Settles, Recorded, AskedIds, StepLeaf, InclusionOf, Nondecreasing, IsLeast, Occurs;
    ResultStep(hs, index, wanted, |w.log|, proof, o, f, t, leaves, ids, values);
    SettledIsLeftmost(w.v, f, t, proof.pos, |w.log|, Some((o.index, o.id)));
    forall x | x in steps ensures steps[x].prefix.Some? && steps[x].prefix.value.counter == w.v(x) {
      var i :| 0 <= i < |f| && f[i].id == x;
      StepCounter(hs, index, proof.pos, proof.steps[i]);
    }
  }

  /** An honest response is evaluated to the log's root with a true answer, which opens. */
  lemma HonestIsEvaluated<H>(hs: Hashes<H>, checks: Checks<H>, index: Index, wanted: Option<nat>, fth: FullTreeHead<H>,
                             proof: SearchProof<H>, opensTo: Bytes<H> -> bool, stored: Stored<H>,
                             distinguished: Option<Rooted<H>>, w: World<H>,
                             r: Result<Outcome<H>, Error>, f: seq<VersionedId>, t: nat, leaves: map<nat, H>,
                             ids: seq<nat>, values: seq<H>, steps: map<nat, ProofStep<H>>)
    requires Honest(hs, checks, index, wanted, fth, proof, opensTo, stored, distinguished, w)
    requires var n := fth.head.value.size; r.Ok? ==>
      Certified(hs, index, wanted, n, proof, r.value, f, t, leaves, ids, values) && Taken(proof, f, steps)
    requires var n := fth.head.value.size;
      Answers(hs, index, wanted, n, proof, w.v) && HashList(proof.inclusion).Ok? ==>
      && Answered(wanted, n, proof, w.v, f, t) && Recorded(hs, index, proof, f, leaves)
      && PairsOf(leaves, ids, values)
      && (BatchRoot(hs.tree, ids, n, values, HashList(proof.inclusion).value).Ok? ==>
           Occurs(w.v, proof.pos, n, t) ==> r.Ok?)
    ensures r.Ok? && r.value.root == LogRoot(hs.tree, w.log)
    ensures TrueAnswer(w, |w.log|, wanted, proof, r.value, t, steps) && opensTo(proof.steps[r.value.index].commitment)
  {
    hide Accepted, Truthful, IsLeast, Target, LogRoot, HonestProof, Answers, Answered, Recorded, PairsOf, BatchRoot,
         Occurs, Taken, HashList, TruthfulSteps, Rising;
    HonestAnswers(hs, w, index, wanted, proof);
    HonestInclusion(hs, w, index, wanted, proof);
    HonestEvaluates(hs, w, index, wanted, proof, f, t, leaves, ids, values);
    HonestAnswerIsTrue(hs, w, index, wanted, proof, r.value, f, t, leaves, ids, values, steps);
  }

  lemma HonestMeans<H>(hs: Hashes<H>, checks: Checks<H>, index: Index, wanted: Option<nat>, fth: FullTreeHead<H>,
                       proof: SearchProof<H>, opensTo: Bytes<H> -> bool, stored: Stored<H>,
                       distinguished: Option<Rooted<H>>, w: World<H>)
    requires Honest(hs, checks, index, wanted, fth, proof, opensTo, stored, distinguished, w)
    ensures w.log != [] && fth.head.Some? && fth.head.value.size == |w.log| && Rising(w.v, proof.pos)
    ensures Accepted(hs.tree, checks, fth, LogRoot(hs.tree, w.log), stored.last, distinguished)
    ensures Truthful(stored.data, index, proof.pos, |w.log|, w.v)
  {
    hide Accepted, Truthful, HonestProof, LogRoot, Rising;
  }

  /** How a response was evaluated: the outcome, the positions asked and the version looked for, the steps
      and leaves by position, and the leaves as a list. */
  datatype Evaluation<+H> = Evaluation(
    outcome: Outcome<H>, asked: seq<VersionedId>, version: nat, steps: map<nat, ProofStep<H>>,
    leaves: map<nat, H>, ids: seq<nat>, values: seq<H>)

  /** The evaluation is what the response's steps and inclusion proof make, and its answer opens. */
  ghost predicate Evaluated<H>(hs: Hashes<H>, index: Index, wanted: Option<nat>, n: nat, proof: SearchProof<H>,
                               opensTo: Bytes<H> -> bool, e: Evaluation<H>) {
    && Certified(hs, index, wanted, n, proof, e.outcome, e.asked, e.version, e.leaves, e.ids, e.values)
    && Taken(proof, e.asked, e.steps)
    && e.outcome.index < |proof.steps| && opensTo(proof.steps[e.outcome.index].commitment)
  }

  ghost predicate Collides<H>(hs: Hashes<H>, w: World<H>, index: Index, proof: SearchProof<H>, e: Evaluation<H>) {
    SearchClash(hs, w, index, proof, e.asked, e.ids, e.values)
  }

  /** The stored data between the steps of recording a result. */
  datatype Recording = Recording(started: Option<MonitoringData>, checked: Option<MonitoringData>)

  /** Everything an accepted search response has passed, and what is kept of it. */
  ghost predicate AcceptedSearch<H>(hs: Hashes<H>, checks: Checks<H>, index: Index, wanted: Option<nat>,
                                    fth: FullTreeHead<H>, proof: SearchProof<H>, opensTo: Bytes<H> -> bool,
                                    stored: Stored<H>, distinguished: Option<Rooted<H>>, monitor: bool, always: bool,
                                    found: Found<H>, e: Evaluation<H>, rec: Recording) {
    && fth.head == Some(found.head.head)
    && Accepted(hs.tree, checks, fth, found.head.root, stored.last, distinguished)
    && Evaluated(hs, index, wanted, found.head.head.size, proof, opensTo, e)
    && found.head.root == e.outcome.root && found.id == e.outcome.id && found.index == e.outcome.index
    && RememberedVia(found.head.head.size, index, proof.pos, found.id, e.version, monitor, always, e.steps, stored.data,
                     rec.started, rec.checked, found.data, true, true)
    && StoredValid(Stored(Some(found.head), found.data))
  }

  /** An accepted response about a world's log has found the least position of the version and opened the
      commitment there, and keeps true stored data true; or response and log exhibit a collision. */
  lemma AcceptedSearchIsTrue<H>(hs: Hashes<H>, checks: Checks<H>, index: Index, wanted: Option<nat>,
                                fth: FullTreeHead<H>, proof: SearchProof<H>, opensTo: Bytes<H> -> bool,
                                stored: Stored<H>, distinguished: Option<Rooted<H>>, monitor: bool, always: bool,
                                found: Found<H>, e: Evaluation<H>, rec: Recording, w: World<H>)
    requires AcceptedSearch(hs, checks, index, wanted, fth, proof, opensTo, stored, distinguished, monitor, always,
                            found, e, rec)
    requires About(hs, w, index, proof.pos, found.head.head.size, found.head.root) && !Collides(hs, w, index, proof, e)
    ensures var n := found.head.head.size;
      && IsLeast(w.v, proof.pos, n, Target(w.v, wanted, n), found.id) && opensTo(Hash(w.c(found.id)))
      && (Truthful(stored.data, index, proof.pos, n, w.v) ==> Truthful(found.data, index, proof.pos, n, w.v))
  {
    hide About, Accepted, Certified, Taken, Truthful, TruthfulSteps, IsLeast, Target, RememberedVia, StoredValid,
         SearchClash, Rising;
    var n, o := found.head.head.size, e.outcome;
    ResultStep(hs, index, wanted, n, proof, o, e.asked, e.version, e.leaves, e.ids, e.values);
    FoundIsTrue(hs, w, index, wanted, n, proof, o, e.asked, e.version, e.leaves, e.ids, e.values, e.steps);
    RisingOf(hs, w, index, proof.pos, n, o.root);
    if Truthful(stored.data, index, proof.pos, n, w.v) {
      RememberedIsTrue(w.v, n, index, proof.pos, o.id, e.version, monitor, always, e.steps, stored.data, rec.started,
                       rec.checked, found.data, true, true);
    }
  }

  /** Verifies a search response. `opensTo` tells which commitments the returned value opens. Success is
      what `AcceptedSearch` says; what is stored afterwards tracks all that was stored before and the result.
      By `AcceptedSearchIsTrue` a result about a world's log is true. Once proof, opening and head are accepted
      (`reached`), recording the result in true stored data cannot fail; or response and log exhibit a collision
      of the hash functions. Honest responses are accepted, whatever the hash functions. */
  method Verify<H(==)>(hs: Hashes<H>, checks: Checks<H>, index: Index, wanted: Option<nat>, fth: FullTreeHead<H>,
                       proof: SearchProof<H>, opensTo: Bytes<H> -> bool, stored: Stored<H>,
                       distinguished: Option<Rooted<H>>, monitor: bool, always: bool, ghost w: World<H>)
    returns (r: Result<Found<H>, Error>, ghost reached: Option<Evaluation<H>>, ghost rec: Recording)
    requires StoredValid(stored)
    ensures r == Err(NoReturn) <==> fth.head.Some? && proof.pos >= fth.head.value.size
    ensures reached.Some? ==> fth.head.Some?
    ensures reached.Some? ==> Evaluated(hs, index, wanted, fth.head.value.size, proof, opensTo, reached.value)
    ensures reached.Some? ==> Accepted(hs.tree, checks, fth, reached.value.outcome.root, stored.last, distinguished)
    ensures r.Ok? ==> reached.Some?
    ensures r.Ok? ==>
      AcceptedSearch(hs, checks, index, wanted, fth, proof, opensTo, stored, distinguished, monitor, always, r.value,
                     reached.value, rec)
    ensures r.Ok? ==>
      checks.serverSigned(r.value.head.head, r.value.head.root) && checks.serverFresh(r.value.head.head.timestamp)
    ensures r.Ok? ==> fth.auditors.Some? && forall a :: a in fth.auditors.value ==>
      && a.head.Some? && checks.auditorFresh(a.head.value.timestamp)
      && a.head.value.size <= r.value.head.head.size <= a.head.value.size + 10_000_000
      && (a.root.None? ==>
           a.head.value.size == r.value.head.head.size && checks.auditorSigned(a.key, a.head.value, r.value.head.root))
      && (a.root.Some? ==>
           a.root.value.Hash? && checks.auditorSigned(a.key, a.head.value, a.root.value.value))
    ensures r.Ok? ==>
      Remembered(r.value.head.head.size, index, proof.pos, r.value.id, reached.value.version, monitor, always,
                 reached.value.steps, stored.data, r.value.data)
    ensures reached.Some? && About(hs, w, index, proof.pos, fth.head.value.size, reached.value.outcome.root) ==>
      || Collides(hs, w, index, proof, reached.value)
      || (Truthful(stored.data, index, proof.pos, fth.head.value.size, w.v) ==> r.Ok?)
    ensures r.Ok? && About(hs, w, index, proof.pos, fth.head.value.size, r.value.head.root) ==>
      || Collides(hs, w, index, proof, reached.value)
      || (IsLeast(w.v, proof.pos, fth.head.value.size, Target(w.v, wanted, fth.head.value.size), r.value.id) &&
           opensTo(Hash(w.c(r.value.id))) &&
           (Truthful(stored.data, index, proof.pos, fth.head.value.size, w.v) ==>
             Truthful(r.value.data, index, proof.pos, fth.head.value.size, w.v)))
    ensures fth.head.Some? && Honest(hs, checks, index, wanted, fth, proof, opensTo, stored, distinguished, w) ==>
      r.Ok? && Truthful(r.value.data, index, proof.pos, fth.head.value.size, w.v)
  {
    hide Honest, HonestProof, Answers, Answered, Recorded, PairsOf, BatchRoot, Occurs, HashList, About, Accepted,
         Certified, Taken, Truthful, TruthfulSteps, Step, IsLeast, Target, LogRoot, PointersBelow, RememberedVia,
         Remembered, Rising, SearchClash;
    reached, rec := None, Recording(None, None);
    if fth.head.None? {
      return Err(RequiredFieldMissing), reached, rec;
    }
    var n := fth.head.value.size;
    ghost var f, t, leaves, ids, values;
    var evaluated, steps;
    evaluated, steps, f, t, leaves, ids, values := EvaluateSearch(hs, index, wanted, n, proof, w.v);
    ghost var honest := Honest(hs, checks, index, wanted, fth, proof, opensTo, stored, distinguished, w);
    if honest {
      HonestMeans(hs, checks, index, wanted, fth, proof, opensTo, stored, distinguished, w);
      HonestIsEvaluated(hs, checks, index, wanted, fth, proof, opensTo, stored, distinguished, w, evaluated, f, t,
                        leaves, ids, values, steps);
    }
    if evaluated.Err? {
      return Err(evaluated.error), reached, rec;
    }
    var o := evaluated.value;
    ResultStep(hs, index, wanted, n, proof, o, f, t, leaves, ids, values);
    if !opensTo(proof.steps[o.index].commitment) {
      return Err(VerificationFailed), reached, rec;
    }
    var head := VerifyFullTreeHead(hs.tree, checks, fth, o.root, stored.last, distinguished);
    if head.Err? {
      return Err(head.error), reached, rec;
    }
    reached := Some(Evaluation(o, f, t, steps, leaves, ids, values));
    StillBelow(hs.tree, checks, fth, o.root, stored, distinguished);
    var version := proof.steps[o.index].prefix.value.counter;
    ghost var s1, s2, s3, checkOk, updateOk;
    var data;
    data, s1, s2, s3, checkOk, updateOk := Remember(stored.data, n, index, proof.pos, o.id, version, monitor, always,
                                                    steps);
    ghost var about := About(hs, w, index, proof.pos, n, o.root) && !SearchClash(hs, w, index, proof, f, ids, values);
    if about {
      FoundIsTrue(hs, w, index, wanted, n, proof, o, f, t, leaves, ids, values, steps);
      RisingOf(hs, w, index, proof.pos, n, o.root);
    }
    if (about || honest) && Truthful(stored.data, index, proof.pos, n, w.v) {
      RememberedIsTrue(w.v, n, index, proof.pos, o.id, version, monitor, always, steps, stored.data, s1, s2, s3,
                       checkOk, updateOk);
    }
    if data.Err? {
      return Err(data.error), reached, rec;
    }
    RememberedIs(n, index, proof.pos, o.id, version, monitor, always, steps, stored.data, s1, s2, s3);
    rec := Recording(s1, s2);
    return Ok(Found(head.value, o.id, o.index, data.value)), reached, rec;
  }

  lemma RisingOf<H>(hs: Hashes<H>, w: World<H>, index: Index, pos: nat, n: nat, root: H)
    requires About(hs, w, index, pos, n, root)
    ensures Rising(w.v, pos)
  {
  }

  lemma StillBelow<H>(h: TreeHash<H>, checks: Checks<H>, fth: FullTreeHead<H>, root: H, stored: Stored<H>,
                      distinguished: Option<Rooted<H>>)
    requires StoredValid(stored) && Accepted(h, checks, fth, root, stored.last, distinguished)
    ensures PointersBelow(stored.data, fth.head.value.size)
  {
    hide Extends, AuditorAccepted;
    if stored.data.Some? {
      ExtendsMonotone(h, Rooted(fth.head.value, root), fth.last, stored.last.value);
    }
  }
}
