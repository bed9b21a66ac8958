/** Acceptance of tree heads and the history a client accepts over time (verify.rs). */
module TreeHeads {
  import opened Wrappers
  import opened Merkle
  import opened ConsistencyIds
  import opened LogProofs
  import opened ConsistencyProofs
  import opened Prefix
  import opened Search

  const ENTRIES_MAX_BEHIND: nat := 10_000_000

  datatype TreeHead = TreeHead(size: nat, timestamp: int)

  /** A tree head together with the root it stands for. */
  datatype Rooted<+H> = Rooted(head: TreeHead, root: H)

  /** A verifying key. */
  type Key = seq<bv8>

  /** What the server says about one auditor, with that auditor's configured key. */
  datatype AuditorHead<+H> = AuditorHead(
    key: Key, head: Option<TreeHead>, root: Option<Bytes<H>>, consistency: seq<Bytes<H>>)

  /** A server's answer: its head, and consistency proofs from the client's stored heads. `auditors`
      is absent when an auditor's head is missing, and empty without third-party auditing. */
  datatype FullTreeHead<+H> = FullTreeHead(
    head: Option<TreeHead>, last: seq<Bytes<H>>, distinguished: seq<Bytes<H>>, auditors: Option<seq<AuditorHead<H>>>)

  /** Signature and clock checks, which this model does not look into. */
  datatype Checks<!H> = Checks(
    serverSigned: (TreeHead, H) -> bool, auditorSigned: (Key, TreeHead, H) -> bool,
    serverFresh: int -> bool, auditorFresh: int -> bool)

  datatype Needed = NothingToVerify | VerifyProof

  /** Compares sizes and timestamps with a stored head; decides whether its proof has to be verified. */
  function CheckConsistencyMetadata<H(==)>(current: Rooted<H>, proof: seq<H>, baseline: Option<Rooted<H>>)
    : Result<Needed, Error>
  {
    match baseline
    case None => if proof != [] then Err(BadData) else Ok(NothingToVerify)
    case Some(last) =>
      if last.head.size == current.head.size then
        if current.root != last.root || current.head.timestamp != last.head.timestamp || proof != [] then Err(BadData)
        else Ok(NothingToVerify)
      else if current.head.size < last.head.size || current.head.timestamp < last.head.timestamp then Err(BadData)
      else Ok(VerifyProof)
  }

  /** The current head extends a stored one: equal, or larger with an accepted consistency proof. */
  ghost predicate Extends<H>(h: TreeHash<H>, current: Rooted<H>, proof: seq<Bytes<H>>, baseline: Option<Rooted<H>>) {
    && HashList(proof).Ok?
    && var hashes := HashList(proof).value;
       match baseline
       case None => hashes == []
       case Some(last) =>
         if last.head.size == current.head.size then current == last && hashes == []
         else
           && last.head.size < current.head.size && last.head.timestamp <= current.head.timestamp
           && Verdict(h, last.head.size, current.head.size, hashes, last.root, current.root).Ok?
  }

  method CheckBaseline<H(==)>(h: TreeHash<H>, current: Rooted<H>, proof: seq<Bytes<H>>, baseline: Option<Rooted<H>>)
    returns (r: Result<(), Error>)
    ensures r.Ok? <==> Extends(h, current, proof, baseline)
    ensures r != Err(NoReturn)
  {
    hide Verdict;
    var hashes := HashList(proof);
    if hashes.Err? {
      return Err(BadData);
    }
    var needed := CheckConsistencyMetadata(current, hashes.value, baseline);
    match needed {
      case Err(e) => return Err(e);
      case Ok(NothingToVerify) => return Ok(());
      case Ok(VerifyProof) =>
        var last := baseline.value;
        var v := VerifyConsistencyProof(h, last.head.size, current.head.size, hashes.value, last.root, current.root);
        return if v.Ok? then Ok(()) else Err(VerificationFailed);
    }
  }

  /** The head an auditor vouches for: explicit when behind the server's, the server's own otherwise. */
  ghost function AuditedRoot<H>(current: Rooted<H>, a: AuditorHead<H>): Option<Rooted<H>> {
    if a.head.None? then None
    else if a.head.value.size == current.head.size then Some(Rooted(a.head.value, current.root))
    else if a.root.Some? && a.root.value.Hash? then Some(Rooted(a.head.value, a.root.value.value))
    else None
  }

  ghost predicate AuditorAccepted<H>(h: TreeHash<H>, checks: Checks<H>, current: Rooted<H>, a: AuditorHead<H>) {
    && AuditedRoot(current, a).Some?
    && var audited := AuditedRoot(current, a).value;
       && checks.auditorFresh(audited.head.timestamp) && checks.auditorSigned(a.key, audited.head, audited.root)
       && audited.head.size <= current.head.size <= audited.head.size + ENTRIES_MAX_BEHIND
       && if audited.head.size == current.head.size then a.consistency == [] && a.root == None
          else
            && HashList(a.consistency).Ok?
            && Verdict(h, audited.head.size, current.head.size, HashList(a.consistency).value, audited.root,
                       current.root).Ok?
  }

  method VerifyAuditor<H(==)>(h: TreeHash<H>, checks: Checks<H>, current: Rooted<H>, a: AuditorHead<H>)
    returns (r: Result<(), Error>)
    ensures r.Ok? <==> AuditorAccepted(h, checks, current, a)
    ensures r != Err(NoReturn)
  {
    hide Verdict;
    if a.head.None? {
      return Err(RequiredFieldMissing);
    }
    var head := a.head.value;
    if !checks.auditorFresh(head.timestamp) {
      return Err(BadData);
    }
    if head.size > current.head.size {
      return Err(BadData);
    }
    if current.head.size - head.size > ENTRIES_MAX_BEHIND {
      return Err(BadData);
    }
    if current.head.size > head.size {
      if a.root.None? {
        return Err(RequiredFieldMissing);
      }
      match a.root.value {
        case WrongSize => return Err(BadData);
        case Hash(root) =>
          var proof := HashList(a.consistency);
          if proof.Err? {
            return Err(BadData);
          }
          var v := VerifyConsistencyProof(h, head.size, current.head.size, proof.value, root, current.root);
          if v.Err? {
            return Err(VerificationFailed);
          }
          return if checks.auditorSigned(a.key, head, root) then Ok(()) else Err(VerificationFailed);
      }
    } else {
      if a.consistency != [] {
        return Err(BadData);
      }
      if a.root.Some? {
        return Err(BadData);
      }
      return if checks.auditorSigned(a.key, head, current.root) then Ok(()) else Err(VerificationFailed);
    }
  }

  /** Everything an accepted tree head has passed. */
  ghost predicate Accepted<H>(h: TreeHash<H>, checks: Checks<H>, fth: FullTreeHead<H>, root: H,
                              last: Option<Rooted<H>>, distinguished: Option<Rooted<H>>) {
    && fth.head.Some?
    && var current := Rooted(fth.head.value, root);
       && Extends(h, current, fth.last, last) && Extends(h, current, fth.distinguished, distinguished)
       && checks.serverSigned(current.head, root) && checks.serverFresh(current.head.timestamp)
       && fth.auditors.Some?
       && forall i :: 0 <= i < |fth.auditors.value| ==> AuditorAccepted(h, checks, current, fth.auditors.value[i])
  }

  /** What it means to extend a stored head: there is none and no proof, it is the same head and there is no
      proof, or it is smaller and not newer and the proof shows consistency. */
  lemma ExtendsExactly<H>(h: TreeHash<H>, head: TreeHead, root: H, proof: seq<Bytes<H>>, stored: Option<Rooted<H>>)
    ensures Extends(h, Rooted(head, root), proof, stored) <==>
      || (proof == [] && (stored.None? || (stored.value.head == head && stored.value.root == root)))
      || (stored.Some? && stored.value.head.size < head.size && stored.value.head.timestamp <= head.timestamp &&
           HashList(proof).Ok? &&
           Verdict(h, stored.value.head.size, head.size, HashList(proof).value, stored.value.root, root).Ok?)
  {
    hide Verdict;
    assert HashList(proof).Ok? ==> (HashList(proof).value == [] <==> proof == []);
  }

  /** What is asked of an auditor: its own signature and clock, and a head of the server's size without root
      and proof, or a smaller one, at most ten million entries behind, with its root and a proof. */
  lemma AuditorExactly<H>(h: TreeHash<H>, checks: Checks<H>, head: TreeHead, root: H, a: AuditorHead<H>)
    ensures AuditorAccepted(h, checks, Rooted(head, root), a) <==>
      && a.head.Some? && checks.auditorFresh(a.head.value.timestamp)
      && (|| (a.head.value.size == head.size && a.root == None && a.consistency == [] &&
               checks.auditorSigned(a.key, a.head.value, root))
          || (a.head.value.size < head.size <= a.head.value.size + 10_000_000 && a.root.Some? &&
               a.root.value.Hash? && checks.auditorSigned(a.key, a.head.value, a.root.value.value) &&
               HashList(a.consistency).Ok? &&
               Verdict(h, a.head.value.size, head.size, HashList(a.consistency).value, a.root.value.value, root).Ok?))
  {
    hide Verdict, HashList;
  }

  method VerifyFullTreeHead<H(==)>(h: TreeHash<H>, checks: Checks<H>, fth: FullTreeHead<H>, root: H,
                                   last: Option<Rooted<H>>, distinguished: Option<Rooted<H>>)
    returns (r: Result<Rooted<H>, Error>)
    ensures r.Ok? <==> Accepted(h, checks, fth, root, last, distinguished)
    ensures r.Ok? ==> r.value == Rooted(fth.head.value, root)
    ensures r.Ok? ==> checks.serverSigned(r.value.head, r.value.root) && checks.serverFresh(r.value.head.timestamp)
    ensures r.Ok? ==> fth.auditors.Some?
    ensures r.Ok? ==> forall a :: a in fth.auditors.value ==>
      && a.head.Some? && checks.auditorFresh(a.head.value.timestamp)
      && a.head.value.size <= r.value.head.size <= a.head.value.size + 10_000_000
      && (a.root.None? ==> a.head.value.size == r.value.head.size && checks.auditorSigned(a.key, a.head.value, root))
      && (a.root.Some? ==>
           a.root.value.Hash? && checks.auditorSigned(a.key, a.head.value, a.root.value.value))
    ensures r != Err(NoReturn)
  {
    hide Extends, AuditorAccepted;
    if fth.head.None? {
      return Err(RequiredFieldMissing);
    }
    var current := Rooted(fth.head.value, root);
    var c := CheckBaseline(h, current, fth.last, last);
    if c.Err? {
      return Err(c.error);
    }
    c := CheckBaseline(h, current, fth.distinguished, distinguished);
    if c.Err? {
      return Err(c.error);
    }
    if !checks.serverSigned(current.head, root) {
      return Err(VerificationFailed);
    }
    if !checks.serverFresh(current.head.timestamp) {
      return Err(BadData);
    }
    if fth.auditors.None? {
      return Err(BadData);
    }
    var auditors := fth.auditors.value;
    for i := 0 to |auditors|
      invariant forall j :: 0 <= j < i ==> AuditorAccepted(h, checks, current, auditors[j])
    {
      var a := VerifyAuditor(h, checks, current, auditors[i]);
      if a.Err? {
        return Err(a.error);
      }
    }
    forall a | a in auditors
      ensures a.head.Some? && checks.auditorFresh(a.head.value.timestamp)
      ensures a.head.value.size <= current.head.size <= a.head.value.size + 10_000_000
      ensures a.root.None? ==>
        a.head.value.size == current.head.size && checks.auditorSigned(a.key, a.head.value, root)
      ensures a.root.Some? ==> a.root.value.Hash? && checks.auditorSigned(a.key, a.head.value, a.root.value.value)
    {
      AuditorExactly(h, checks, current.head, root, a);
    }
    return Ok(current);
  }

  // One linear history ----------------------------------------------------------------------------

  /** The head is the head of the log's first `size` entries. */
  ghost predicate HeadOf<H>(h: TreeHash<H>, log: seq<H>, r: Rooted<H>) {
    0 < r.head.size <= |log| && r.root == LogRoot(h, log[..r.head.size])
  }

  /** A consistent step back: what a head of a log extends is a head of the same log. */
  lemma VerdictIsPrefix<H>(h: TreeHash<H>, log: seq<H>, m: nat, n: nat, proof: seq<H>, mRoot: H, nRoot: H)
    requires 0 < n <= |log| && nRoot == LogRoot(h, log[..n])
    requires Verdict(h, m, n, proof, mRoot, nRoot).Ok? && !ConsistencyClash(h, log[..n], m, proof, mRoot)
    ensures 0 < m < n && mRoot == LogRoot(h, log[..m])
  {
    hide ConsistencyClash, LogRoot, OldIds, NewIds, OldRoot, NewRoot, SubIds;
    ConsistencyIsExact(h, log[..n], m, proof, mRoot);
    assert log[..n][..m] == log[..m];
  }

  /** The consistency proof from an older head and the log exhibit a collision. */
  ghost predicate ProofClash<H>(h: TreeHash<H>, log: seq<H>, current: Rooted<H>, proof: seq<Bytes<H>>, last: Rooted<H>)
  {
    && current.head.size <= |log| && HashList(proof).Ok?
    && ConsistencyClash(h, log[..current.head.size], last.head.size, HashList(proof).value, last.root)
  }

  lemma ExtendsIsPrefix<H>(h: TreeHash<H>, log: seq<H>, current: Rooted<H>, proof: seq<Bytes<H>>, last: Rooted<H>)
    requires HeadOf(h, log, current) && Extends(h, current, proof, Some(last))
    requires !ProofClash(h, log, current, proof, last)
    ensures HeadOf(h, log, last) && last.head.size <= current.head.size && last.head.timestamp <= current.head.timestamp
  {
    hide ConsistencyClash, LogRoot, Verdict;
    if last.head.size != current.head.size {
      VerdictIsPrefix(h, log, last.head.size, current.head.size, HashList(proof).value, last.root, current.root);
    }
  }

  lemma AuditedIsPrefix<H>(h: TreeHash<H>, checks: Checks<H>, log: seq<H>, current: Rooted<H>, a: AuditorHead<H>)
    requires HeadOf(h, log, current) && AuditorAccepted(h, checks, current, a)
    requires !AuditClash(h, log, current, a)
    ensures AuditedRoot(current, a).Some? && HeadOf(h, log, AuditedRoot(current, a).value)
  {
    hide ConsistencyClash, LogRoot, Verdict;
    var audited := AuditedRoot(current, a).value;
    if audited.head.size != current.head.size {
      VerdictIsPrefix(h, log, audited.head.size, current.head.size, HashList(a.consistency).value, audited.root,
                      current.root);
    }
  }

  ghost predicate AuditClash<H>(h: TreeHash<H>, log: seq<H>, current: Rooted<H>, a: AuditorHead<H>) {
    AuditedRoot(current, a).Some? && ProofClash(h, log, current, a.consistency, AuditedRoot(current, a).value)
  }

  /** One of the consistency proofs of an answer exhibits a collision with the log. */
  ghost predicate HeadClash<H>(h: TreeHash<H>, log: seq<H>, fth: FullTreeHead<H>, root: H, last: Option<Rooted<H>>,
                               distinguished: Option<Rooted<H>>) {
    && fth.head.Some?
    && var current := Rooted(fth.head.value, root);
       || (last.Some? && ProofClash(h, log, current, fth.last, last.value))
       || (distinguished.Some? && ProofClash(h, log, current, fth.distinguished, distinguished.value))
       || (fth.auditors.Some? && exists a :: a in fth.auditors.value && AuditClash(h, log, current, a))
  }

  /** A response with the root computed from it, the stored distinguished head, and the checks at the
      time it arrives: every response meets its own clock. */
  datatype Response<!H> = Response(fth: FullTreeHead<H>, root: H, distinguished: Option<Rooted<H>>, checks: Checks<H>)

  ghost function HeadOfResponse<H>(r: Response<H>): Rooted<H>
    requires r.fth.head.Some?
  {
    Rooted(r.fth.head.value, r.root)
  }

  /** The stored head before response i: the initial one, then always the one accepted last. */
  ghost function StoredBefore<H>(run: seq<Response<H>>, start: Option<Rooted<H>>, i: nat): Option<Rooted<H>>
    requires i <= |run| && forall j :: 0 <= j < i ==> run[j].fth.head.Some?
  {
    if i == 0 then start else Some(HeadOfResponse(run[i - 1]))
  }

  /** A run: every response is accepted against the head stored before it. */
  ghost predicate AcceptedRun<H>(h: TreeHash<H>, run: seq<Response<H>>, start: Option<Rooted<H>>) {
    && (forall i :: 0 <= i < |run| ==> run[i].fth.head.Some?)
    && (forall i :: 0 <= i < |run| ==>
         Accepted(h, run[i].checks, run[i].fth, run[i].root, StoredBefore(run, start, i), run[i].distinguished))
  }

  /** No response of the run exhibits a collision with the log. */
  ghost predicate NoRunClash<H>(h: TreeHash<H>, run: seq<Response<H>>, start: Option<Rooted<H>>, log: seq<H>)
    requires forall i :: 0 <= i < |run| ==> run[i].fth.head.Some?
  {
    forall i :: 0 <= i < |run| ==>
      !HeadClash(h, log, run[i].fth, run[i].root, StoredBefore(run, start, i), run[i].distinguished)
  }

  /** Collision-free hash functions never clash. */
  lemma IdealRun<H(!new)>(h: TreeHash<H>, run: seq<Response<H>>, start: Option<Rooted<H>>, log: seq<H>)
    requires CollisionFree(h) && forall i :: 0 <= i < |run| ==> run[i].fth.head.Some?
    ensures NoRunClash(h, run, start, log)
  {
    hide CollisionFree, ConsistencyClash, HashList;
    forall current: Rooted<H>, proof: seq<Bytes<H>>, last: Rooted<H> ensures !ProofClash(h, log, current, proof, last) {
      if current.head.size <= |log| && HashList(proof).Ok? {
        NoConsistencyClash(h, log[..current.head.size], last.head.size, HashList(proof).value, last.root);
      }
    }
  }

  /** Size and timestamp of b are at least those of a; with the same size they are the same head. */
  ghost predicate NotBefore<H>(b: Rooted<H>, a: Rooted<H>) {
    && a.head.size <= b.head.size && a.head.timestamp <= b.head.timestamp
    && (a.head.size == b.head.size ==> a == b)
  }

  lemma NotBeforeTransitive<H>(c: Rooted<H>, b: Rooted<H>, a: Rooted<H>)
    ensures NotBefore(a, a) && (NotBefore(c, b) && NotBefore(b, a) ==> NotBefore(c, a))
  {
  }

  /** Along a run, from the stored head on, sizes and timestamps never decrease, and with equal sizes the
      heads are equal. */
  lemma {:induction false} RunIsMonotone<H>(h: TreeHash<H>, run: seq<Response<H>>, start: Option<Rooted<H>>, i: nat,
                                            j: nat)
    requires AcceptedRun(h, run, start) && i <= j < |run|
    ensures NotBefore(HeadOfResponse(run[j]), HeadOfResponse(run[i]))
    ensures start.Some? ==> NotBefore(HeadOfResponse(run[j]), start.value)
    decreases j
  {
    hide AcceptedRun, NotBefore, Extends;
    HaveHeads(h, run, start);
    var last := HeadOfResponse(run[j]);
    NotBeforeTransitive(last, last, last);
    if j == 0 {
      FirstExtends(h, run, start);
      if start.Some? {
        ExtendsMonotone(h, last, run[0].fth.last, start.value);
      }
    } else {
      var before := HeadOfResponse(run[j - 1]);
      RunIsMonotone(h, run, start, if i < j then i else j - 1, j - 1);
      StepExtends(h, run, start, j);
      ExtendsMonotone(h, last, run[j].fth.last, before);
      NotBeforeTransitive(last, before, HeadOfResponse(run[i]));
      if start.Some? {
        NotBeforeTransitive(last, before, start.value);
      }
    }
  }

  lemma FirstExtends<H>(h: TreeHash<H>, run: seq<Response<H>>, start: Option<Rooted<H>>)
    requires AcceptedRun(h, run, start) && run != []
    ensures Extends(h, HeadOfResponse(run[0]), run[0].fth.last, start)
  {
    hide Extends, AuditorAccepted;
    assert Accepted(h, run[0].checks, run[0].fth, run[0].root, StoredBefore(run, start, 0), run[0].distinguished);
  }

  lemma HaveHeads<H>(h: TreeHash<H>, run: seq<Response<H>>, start: Option<Rooted<H>>)
    requires AcceptedRun(h, run, start)
    ensures forall i :: 0 <= i < |run| ==> run[i].fth.head.Some?
  {
    hide Accepted;
  }

  lemma StepExtends<H>(h: TreeHash<H>, run: seq<Response<H>>, start: Option<Rooted<H>>, j: nat)
    requires AcceptedRun(h, run, start) && 0 < j < |run|
    ensures Extends(h, HeadOfResponse(run[j]), run[j].fth.last, Some(HeadOfResponse(run[j - 1])))
  {
    hide Extends, AuditorAccepted;
    assert StoredBefore(run, start, j) == Some(HeadOfResponse(run[j - 1]));
    assert Accepted(h, run[j].checks, run[j].fth, run[j].root, StoredBefore(run, start, j), run[j].distinguished);
  }

  lemma ExtendsMonotone<H>(h: TreeHash<H>, current: Rooted<H>, proof: seq<Bytes<H>>, last: Rooted<H>)
    requires Extends(h, current, proof, Some(last))
    ensures NotBefore(current, last)
  {
    hide Verdict;
  }

  lemma {:induction false} HeadInHistory<H>(h: TreeHash<H>, run: seq<Response<H>>, start: Option<Rooted<H>>,
                                            log: seq<H>, i: nat)
    requires AcceptedRun(h, run, start) && NoRunClash(h, run, start, log) && i < |run|
    requires HeadOf(h, log, HeadOfResponse(run[|run| - 1]))
    ensures HeadOf(h, log, HeadOfResponse(run[i]))
    decreases |run| - i
  {
    hide HeadClash, Accepted, HeadOf;
    if i + 1 < |run| {
      HeadInHistory(h, run, start, log, i + 1);
      StoredIsPrefix(h, run, start, log, i + 1);
    }
  }

  /** One linear history: when the last accepted root is the root of a log, every head accepted in
      the run, every stored head it was compared with, and every head an auditor vouched for is the head
      of a prefix of that log. */
  lemma OneHistory<H>(h: TreeHash<H>, run: seq<Response<H>>, start: Option<Rooted<H>>, log: seq<H>, i: nat)
    requires AcceptedRun(h, run, start) && NoRunClash(h, run, start, log) && i < |run|
    requires HeadOf(h, log, HeadOfResponse(run[|run| - 1]))
    ensures HeadOf(h, log, HeadOfResponse(run[i]))
    ensures start.Some? ==> HeadOf(h, log, start.value)
    ensures run[i].distinguished.Some? ==> HeadOf(h, log, run[i].distinguished.value)
    ensures forall a :: a in run[i].fth.auditors.value ==> HeadOf(h, log, AuditedRoot(HeadOfResponse(run[i]), a).value)
  {
    hide ProofClash, Extends, AuditorAccepted, HeadOf, AuditedRoot;
    var current := HeadOfResponse(run[i]);
    HeadInHistory(h, run, start, log, i);
    HeadInHistory(h, run, start, log, 0);
    if start.Some? {
      StoredIsPrefix(h, run, start, log, 0);
    }
    assert Accepted(h, run[i].checks, run[i].fth, run[i].root, StoredBefore(run, start, i), run[i].distinguished);
    OthersInHistory(h, run[i].checks, run[i].fth, run[i].root, StoredBefore(run, start, i), run[i].distinguished, log);
  }

  lemma OthersInHistory<H>(h: TreeHash<H>, checks: Checks<H>, fth: FullTreeHead<H>, root: H, last: Option<Rooted<H>>,
                           distinguished: Option<Rooted<H>>, log: seq<H>)
    requires Accepted(h, checks, fth, root, last, distinguished) && !HeadClash(h, log, fth, root, last, distinguished)
    requires HeadOf(h, log, Rooted(fth.head.value, root))
    ensures distinguished.Some? ==> HeadOf(h, log, distinguished.value)
    ensures forall a :: a in fth.auditors.value ==>
      var audited := AuditedRoot(Rooted(fth.head.value, root), a); audited.Some? && HeadOf(h, log, audited.value)
  {
    hide ProofClash, Extends, AuditorAccepted, HeadOf, AuditedRoot;
    var current := Rooted(fth.head.value, root);
    if distinguished.Some? {
      ExtendsIsPrefix(h, log, current, fth.distinguished, distinguished.value);
    }
    forall a | a in fth.auditors.value
      ensures AuditedRoot(current, a).Some? && HeadOf(h, log, AuditedRoot(current, a).value)
    {
      AuditedIsPrefix(h, checks, log, current, a);
    }
  }

  lemma StoredIsPrefix<H>(h: TreeHash<H>, run: seq<Response<H>>, start: Option<Rooted<H>>, log: seq<H>, i: nat)
    requires AcceptedRun(h, run, start) && NoRunClash(h, run, start, log) && i < |run|
    requires HeadOf(h, log, HeadOfResponse(run[i])) && StoredBefore(run, start, i).Some?
    ensures HeadOf(h, log, StoredBefore(run, start, i).value)
  {
    hide ProofClash, Extends, AuditorAccepted, HeadOf;
    assert Accepted(h, run[i].checks, run[i].fth, run[i].root, StoredBefore(run, start, i), run[i].distinguished);
    ExtendsIsPrefix(h, log, HeadOfResponse(run[i]), run[i].fth.last, StoredBefore(run, start, i).value);
  }

  // Honest answers ----------------------------------------------------------------------------------

  /** The consistency proof an honest server sends from the log's first m entries: nothing for the whole
      log, and otherwise the log's hashes at the ids of the proof. */
  ghost function OwnProof<H>(h: TreeHash<H>, log: seq<H>, m: nat): seq<Bytes<H>>
    requires 0 < m <= |log|
  {
    if m == |log| then []
    else
      ConsistencyAccepts(h, log, m);
      var hashes := HashesAt(h, log, SubIds(m, |log|, true));
      seq(|hashes|, i requires 0 <= i < |hashes| => Hash(hashes[i]))
  }

  /** A stored head is an earlier head of the same log, and the proof is the honest one from it. */
  ghost predicate HonestFrom<H>(h: TreeHash<H>, log: seq<H>, head: TreeHead, proof: seq<Bytes<H>>,
                                stored: Option<Rooted<H>>)
    requires head.size == |log|
  {
    match stored
    case None => proof == []
    case Some(s) =>
      && HeadOf(h, log, s) && s.head.timestamp <= head.timestamp && (s.head.size == head.size ==> s.head == head)
      && proof == OwnProof(h, log, s.head.size)
  }

  /** An auditor signed a recent head of the same log, and the proof is the honest one from it. */
  ghost predicate HonestAuditor<H>(h: TreeHash<H>, checks: Checks<H>, log: seq<H>, a: AuditorHead<H>) {
    && a.head.Some? && checks.auditorFresh(a.head.value.timestamp)
    && var m := a.head.value.size;
       && 0 < m <= |log| <= m + 10_000_000 && checks.auditorSigned(a.key, a.head.value, LogRoot(h, log[..m]))
       && a.root == (if m == |log| then None else Some(Hash(LogRoot(h, log[..m]))))
       && a.consistency == OwnProof(h, log, m)
  }

  /** An answer of an honest server with this log, at a time when every clock check passes. */
  ghost predicate HonestHead<H>(h: TreeHash<H>, checks: Checks<H>, log: seq<H>, fth: FullTreeHead<H>,
                                last: Option<Rooted<H>>, distinguished: Option<Rooted<H>>) {
    && log != [] && fth.head.Some? && fth.head.value.size == |log|
    && checks.serverSigned(fth.head.value, LogRoot(h, log)) && checks.serverFresh(fth.head.value.timestamp)
    && HonestFrom(h, log, fth.head.value, fth.last, last)
    && HonestFrom(h, log, fth.head.value, fth.distinguished, distinguished)
    && fth.auditors.Some? && forall a :: a in fth.auditors.value ==> HonestAuditor(h, checks, log, a)
  }

  lemma OwnProofHashes<H>(h: TreeHash<H>, log: seq<H>, m: nat, proof: seq<Bytes<H>>)
    requires 0 < m < |log|
    ensures AllInLog(|log|, SubIds(m, |log|, true))
    ensures proof == OwnProof(h, log, m) <==> HashList(proof) == Ok(HashesAt(h, log, SubIds(m, |log|, true)))
  {
    hide SubIds, AllInLog, HashAt, LogRoot, Verdict;
    ConsistencyAccepts(h, log, m);
    var hashes := HashesAt(h, log, SubIds(m, |log|, true));
    var own := OwnProof(h, log, m);
    assert |own| == |hashes| && forall i :: 0 <= i < |own| ==> own[i] == Hash(hashes[i]);
    if proof == own {
      assert HashList(proof).value == hashes;
    }
  }

  /** An accepted proof is the honest one, and the honest one is accepted. */
  lemma OwnVerdict<H>(h: TreeHash<H>, log: seq<H>, m: nat, proof: seq<Bytes<H>>, mRoot: H)
    requires 0 < m < |log|
    ensures mRoot == LogRoot(h, log[..m]) && proof == OwnProof(h, log, m) ==>
      HashList(proof).Ok? && Verdict(h, m, |log|, HashList(proof).value, mRoot, LogRoot(h, log)).Ok?
    ensures HashList(proof).Ok? && !ConsistencyClash(h, log, m, HashList(proof).value, mRoot) ==>
      (Verdict(h, m, |log|, HashList(proof).value, mRoot, LogRoot(h, log)).Ok? ==>
         mRoot == LogRoot(h, log[..m]) && proof == OwnProof(h, log, m))
  {
    hide SubIds, AllInLog, HashAt, LogRoot, Verdict, ConsistencyClash, OwnProof, HashList, HashesAt;
    OwnProofHashes(h, log, m, proof);
    ConsistencyAccepts(h, log, m);
    if HashList(proof).Ok? && !ConsistencyClash(h, log, m, HashList(proof).value, mRoot) {
      ConsistencyIsExact(h, log, m, HashList(proof).value, mRoot);
    }
  }

  lemma BetweenSizes<H>(h: TreeHash<H>, m: nat, n: nat, proof: seq<Bytes<H>>, mRoot: H, nRoot: H)
    ensures HashList(proof).Ok? && Verdict(h, m, n, HashList(proof).value, mRoot, nRoot).Ok? ==> 0 < m < n
  {
  }

  lemma HonestExtends<H>(h: TreeHash<H>, log: seq<H>, head: TreeHead, proof: seq<Bytes<H>>, stored: Option<Rooted<H>>)
    requires log != [] && head.size == |log|
    ensures HonestFrom(h, log, head, proof, stored) ==> Extends(h, Rooted(head, LogRoot(h, log)), proof, stored)
    ensures stored.None? || !ProofClash(h, log, Rooted(head, LogRoot(h, log)), proof, stored.value) ==>
      (HonestFrom(h, log, head, proof, stored) <==> Extends(h, Rooted(head, LogRoot(h, log)), proof, stored))
  {
    hide Extends, LogRoot, Verdict, ConsistencyClash, SubIds, HashList;
    ExtendsExactly(h, head, LogRoot(h, log), proof, stored);
    assert log[..|log|] == log;
    if stored.Some? {
      BetweenSizes(h, stored.value.head.size, |log|, proof, stored.value.root, LogRoot(h, log));
      if 0 < stored.value.head.size < |log| {
        OwnVerdict(h, log, stored.value.head.size, proof, stored.value.root);
      }
    }
  }

  lemma HonestAudits<H>(h: TreeHash<H>, checks: Checks<H>, log: seq<H>, head: TreeHead, a: AuditorHead<H>)
    requires log != [] && head.size == |log|
    ensures HonestAuditor(h, checks, log, a) ==> AuditorAccepted(h, checks, Rooted(head, LogRoot(h, log)), a)
    ensures !AuditClash(h, log, Rooted(head, LogRoot(h, log)), a) ==>
      (HonestAuditor(h, checks, log, a) <==> AuditorAccepted(h, checks, Rooted(head, LogRoot(h, log)), a))
  {
    hide AuditorAccepted, LogRoot, Verdict, ConsistencyClash, SubIds, HashList;
    AuditorExactly(h, checks, head, LogRoot(h, log), a);
    assert log[..|log|] == log;
    if a.head.Some? && a.root.Some? && a.root.value.Hash? {
      BetweenSizes(h, a.head.value.size, |log|, a.consistency, a.root.value.value, LogRoot(h, log));
      if 0 < a.head.value.size < |log| {
        OwnVerdict(h, log, a.head.value.size, a.consistency, a.root.value.value);
      }
    }
  }

  /** Every honest answer is accepted, whatever the hash functions; and an accepted answer with the root
      of a log is an honest answer for it, unless one of its proofs exhibits a collision. */
  lemma HonestHeadIsAccepted<H>(h: TreeHash<H>, checks: Checks<H>, log: seq<H>, fth: FullTreeHead<H>,
                                last: Option<Rooted<H>>, distinguished: Option<Rooted<H>>)
    requires log != []
    ensures HonestHead(h, checks, log, fth, last, distinguished) ==>
      Accepted(h, checks, fth, LogRoot(h, log), last, distinguished)
    ensures fth.head.Some? && fth.head.value.size == |log| &&
            !HeadClash(h, log, fth, LogRoot(h, log), last, distinguished) ==>
      (HonestHead(h, checks, log, fth, last, distinguished) <==>
       Accepted(h, checks, fth, LogRoot(h, log), last, distinguished))
  {
    hide Extends, HonestFrom, AuditorAccepted, HonestAuditor, LogRoot, ProofClash, AuditClash;
    if fth.head.Some? && fth.head.value.size == |log| {
      var head := fth.head.value;
      HonestExtends(h, log, head, fth.last, last);
      HonestExtends(h, log, head, fth.distinguished, distinguished);
      if fth.auditors.Some? {
        forall a | a in fth.auditors.value
          ensures HonestAuditor(h, checks, log, a) ==> AuditorAccepted(h, checks, Rooted(head, LogRoot(h, log)), a)
          ensures !AuditClash(h, log, Rooted(head, LogRoot(h, log)), a) ==>
            (HonestAuditor(h, checks, log, a) <==> AuditorAccepted(h, checks, Rooted(head, LogRoot(h, log)), a))
        {
          HonestAudits(h, checks, log, head, a);
        }
      }
    }
  }
}
