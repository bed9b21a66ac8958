/** A client's life: any mix of accepted searches and monitor responses, each checked against what the ones
    before it left (verify.rs, `verify_search_internal` and `verify_monitor`). */
module ClientRuns {
  import opened Wrappers
  import opened Merkle
  import opened Guide
  import opened Prefix
  import opened Search
  import opened TreeHeads
  import opened Monitoring
  import opened VerifySearch
  import opened VerifyMonitor

  /** What a client keeps: the last accepted head, and the data of every key it monitors. */
  datatype Client<+H> = Client(last: Option<Rooted<H>>, data: StoredKeys)

  /** A response that was accepted, with what it contained, what was computed and what was kept. */
  datatype Event<!H> =
    | Searched(key: SearchKey, index: Index, wanted: Option<nat>, fth: FullTreeHead<H>, proof: SearchProof<H>,
               opensTo: Bytes<H> -> bool, distinguished: Option<Rooted<H>>, monitor: bool, always: bool,
               checks: Checks<H>, found: Found<H>, evaluation: Evaluation<H>, recording: Recording)
    | Updated(keys: seq<MonitorKey>, fth: FullTreeHead<H>, proofs: seq<seq<ProofStep<H>>>, inclusion: seq<Bytes<H>>,
              known: Rooted<H>, checks: Checks<H>, head: Rooted<H>, data: StoredKeys,
              entries: seq<map<nat, ProofStep<H>>>, seen: map<nat, H>)

  function DataOf<H>(c: Client<H>, k: SearchKey): Option<MonitoringData> {
    if k in c.data then Some(c.data[k]) else None
  }

  function HeadOfEvent<H>(e: Event<H>): Rooted<H> {
    match e
    case Searched(_, _, _, _, _, _, _, _, _, _, found, _, _) => found.head
    case Updated(_, _, _, _, _, _, head, _, _, _) => head
  }

  /** The event as a tree head response. */
  function ResponseOf<H>(e: Event<H>): Response<H> {
    match e
    case Searched(_, _, _, fth, _, _, distinguished, _, _, checks, found, _, _) =>
      Response(fth, found.head.root, distinguished, checks)
    case Updated(_, fth, _, _, known, checks, head, _, _, _) => Response(fth, head.root, Some(known), checks)
  }

  /** What the client keeps after an event. */
  function After<H>(c: Client<H>, e: Event<H>): Client<H> {
    match e
    case Searched(k, _, _, _, _, _, _, _, _, _, found, _, _) =>
      Client(Some(found.head), if found.data.Some? then c.data[k := found.data.value] else c.data)
    case Updated(_, _, _, _, _, _, head, data, _, _) => Client(Some(head), c.data + data)
  }

  /** The event is accepted by a client in this state. */
  ghost predicate Accepts<H(!new)>(hs: Hashes<H>, c: Client<H>, e: Event<H>) {
    match e
    case Searched(k, index, wanted, fth, proof, opensTo, distinguished, monitor, always, checks, found, ev, rec) =>
      AcceptedSearch(hs, checks, index, wanted, fth, proof, opensTo, Stored(c.last, DataOf(c, k)), distinguished,
                     monitor, always, found, ev, rec)
    case Updated(keys, fth, proofs, inclusion, known, checks, head, data, entries, seen) =>
      AcceptedMonitor(hs, checks, keys, fth, proofs, inclusion, c.last, known, c.data, head, data, entries, seen)
  }

  /** The client after the first i events. */
  function StateAfter<H>(start: Client<H>, events: seq<Event<H>>, i: nat): Client<H>
    requires i <= |events|
  {
    if i == 0 then start else After(StateAfter(start, events, i - 1), events[i - 1])
  }

  /** A life: every event is accepted in the state that the ones before it left. */
  ghost predicate IsLife<H(!new)>(hs: Hashes<H>, start: Client<H>, events: seq<Event<H>>) {
    forall i :: 0 <= i < |events| ==> Accepts(hs, StateAfter(start, events, i), events[i])
  }

  // The truth ----------------------------------------------------------------------------------------

  /** A log, what it commits to, and for every key its index and first position. */
  datatype ClientWorld<!H> = ClientWorld(keys: KeyWorld<H>, index: SearchKey -> Index, pos: SearchKey -> nat)

  /** The world as it was when the log had n entries. */
  ghost function Earlier<H>(w: KeyWorld<H>, n: nat): KeyWorld<H> {
    if n <= |w.log| then w.(log := w.log[..n]) else w
  }

  /** The log is about all keys, and their versions never fall. */
  ghost predicate IsWorld<H>(hs: Hashes<H>, w: ClientWorld<H>) {
    forall k :: IsLogOf(hs, w.keys.Of(k), w.index(k), w.pos(k)) && Rising(w.keys.v(k), w.pos(k))
  }

  /** A search for a key of which nothing is stored names the key's index and first position. */
  ghost predicate NamesKey<H>(w: ClientWorld<H>, c: Client<H>, e: Event<H>) {
    e.Searched? && e.key !in c.data ==> e.index == w.index(e.key) && e.proof.pos == w.pos(e.key)
  }

  /** All pointers hold the true versions of their positions. */
  ghost predicate TrueClient<H>(w: ClientWorld<H>, c: Client<H>) {
    forall k :: k in c.data ==>
      c.last.Some? && Truthful(Some(c.data[k]), w.index(k), w.pos(k), c.last.value.head.size, w.keys.v(k))
  }

  /** The answer is the least position of the version in the log as it was, and its commitment opened. */
  ghost predicate TrueEvent<H>(w: ClientWorld<H>, e: Event<H>) {
    e.Searched? ==>
      var n, v := e.found.head.head.size, w.keys.v(e.key);
      && n > 0 && IsLeast(v, w.pos(e.key), n, Target(v, e.wanted, n), e.found.id)
      && e.opensTo(Hash(w.keys.c(e.found.id)))
  }

  /** The response exhibits a collision with the log: in a consistency proof, a step, or the inclusion proof. */
  ghost predicate EventClash<H(!new)>(hs: Hashes<H>, w: ClientWorld<H>, c: Client<H>, e: Event<H>) {
    var r, past := ResponseOf(e), Earlier(w.keys, HeadOfEvent(e).head.size);
    || HeadClash(hs.tree, w.keys.log, r.fth, r.root, c.last, r.distinguished)
    || match e
       case Searched(k, index, _, _, proof, _, _, _, _, _, _, ev, _) => Collides(hs, past.Of(k), index, proof, ev)
       case Updated(keys, _, _, inclusion, _, _, _, _, entries, seen) =>
         MonitorClash(hs, past, c.data, keys, entries, seen, inclusion)
  }

  // The heads of a life are a run -------------------------------------------------------------------------

  ghost function Responses<H>(events: seq<Event<H>>): (run: seq<Response<H>>)
    ensures |run| == |events| && forall i :: 0 <= i < |events| ==> run[i] == ResponseOf(events[i])
  {
    seq(|events|, i requires 0 <= i < |events| => ResponseOf(events[i]))
  }

  lemma AcceptsHead<H(!new)>(hs: Hashes<H>, c: Client<H>, e: Event<H>)
    requires Accepts(hs, c, e)
    ensures var r := ResponseOf(e);
      && r.fth.head == Some(HeadOfEvent(e).head) && r.root == HeadOfEvent(e).root
      && Accepted(hs.tree, r.checks, r.fth, r.root, c.last, r.distinguished)
    ensures After(c, e).last == Some(HeadOfEvent(e))
  {
    hide Accepted, Evaluated, RememberedVia, EvaluatedMonitor, UpdatedKeys, KeptKeys, StoredValid;
  }

  /** What is stored before each event is what the run of tree heads says. */
  lemma LifeIsRun<H(!new)>(hs: Hashes<H>, start: Client<H>, events: seq<Event<H>>)
    requires IsLife(hs, start, events)
    ensures AcceptedRun(hs.tree, Responses(events), start.last)
    ensures forall i :: 0 <= i < |events| ==>
      StateAfter(start, events, i).last == StoredBefore(Responses(events), start.last, i)
  {
    hide Accepts, Accepted, ResponseOf, HeadOfEvent, After;
    var run := Responses(events);
    forall i | 0 <= i < |events| ensures
      var c, r := StateAfter(start, events, i), run[i];
      && r.fth.head == Some(HeadOfEvent(events[i]).head) && r.root == HeadOfEvent(events[i]).root
      && Accepted(hs.tree, r.checks, r.fth, r.root, c.last, r.distinguished)
      && After(c, events[i]).last == Some(HeadOfEvent(events[i]))
    {
      AcceptsHead(hs, StateAfter(start, events, i), events[i]);
    }
  }

  // Every event is true ---------------------------------------------------------------------------------

  /** A prefix of the log is a log of the same world. */
  lemma EarlierIsLog<H>(hs: Hashes<H>, w: ClientWorld<H>, n: nat, k: SearchKey)
    requires IsWorld(hs, w) && n <= |w.keys.log|
    ensures IsLogOf(hs, Earlier(w.keys, n).Of(k), w.index(k), w.pos(k)) && Rising(w.keys.v(k), w.pos(k))
  {
    hide Opens, Rising;
    assert IsLogOf(hs, w.keys.Of(k), w.index(k), w.pos(k));
  }

  lemma TruthfulLater(d: Option<MonitoringData>, index: Index, pos: nat, n: nat, n': nat, v: nat -> nat)
    requires Truthful(d, index, pos, n, v) && n <= n'
    ensures Truthful(d, index, pos, n', v)
  {
  }

  lemma SearchStep<H(!new)>(hs: Hashes<H>, w: ClientWorld<H>, c: Client<H>, e: Event<H>)
    requires IsWorld(hs, w) && Accepts(hs, c, e) && e.Searched? && NamesKey(w, c, e) && TrueClient(w, c)
    requires HeadOf(hs.tree, w.keys.log, HeadOfEvent(e)) && !EventClash(hs, w, c, e)
    requires c.last.Some? ==> NotBefore(HeadOfEvent(e), c.last.value)
    ensures TrueEvent(w, e) && TrueClient(w, After(c, e))
  {
    hide IsWorld, AcceptedSearch, HeadClash, SearchClash, IsLogOf, Truthful, IsLeast, Target, Rising, LogRoot;
    var n, k := e.found.head.head.size, e.key;
    var past := Earlier(w.keys, n).Of(k);
    EarlierIsLog(hs, w, n, k);
    if k in c.data {
      StoredKeyIsNamed(hs, c, e);
      KeyOfTruthful(c.data[k], w.index(k), w.pos(k), c.last.value.head.size, w.keys.v(k));
      TruthfulLater(Some(c.data[k]), w.index(k), w.pos(k), c.last.value.head.size, n, w.keys.v(k));
    } else {
      NothingIsTrue(w.index(k), w.pos(k), n, w.keys.v(k));
    }
    AcceptedSearchIsTrue(hs, e.checks, e.index, e.wanted, e.fth, e.proof, e.opensTo, Stored(c.last, DataOf(c, k)),
                         e.distinguished, e.monitor, e.always, e.found, e.evaluation, e.recording, past);
    OthersStay(w, c, n, {k});
  }

  /** A search for a key with stored data is accepted only for the stored index and first position. */
  lemma StoredKeyIsNamed<H(!new)>(hs: Hashes<H>, c: Client<H>, e: Event<H>)
    requires Accepts(hs, c, e) && e.Searched? && e.key in c.data
    ensures e.index == c.data[e.key].index && e.proof.pos == c.data[e.key].pos
  {
    hide Accepted, Evaluated, StoredValid, FirstTracked, CanUpdate, IsUpdate;
  }

  lemma KeyOfTruthful(d: MonitoringData, index: Index, pos: nat, n: nat, v: nat -> nat)
    requires Truthful(Some(d), index, pos, n, v)
    ensures d.index == index && d.pos == pos
  {
  }

  lemma NothingIsTrue(index: Index, pos: nat, n: nat, v: nat -> nat)
    ensures Truthful(None, index, pos, n, v)
  {
  }

  /** Data that an event does not touch stays true in the larger log. */
  lemma OthersStay<H>(w: ClientWorld<H>, c: Client<H>, n: nat, touched: set<SearchKey>)
    requires TrueClient(w, c) && (c.last.Some? ==> c.last.value.head.size <= n)
    ensures forall k :: k in c.data && k !in touched ==>
      Truthful(Some(c.data[k]), w.index(k), w.pos(k), n, w.keys.v(k))
  {
    hide Truthful;
    forall k | k in c.data ensures Truthful(Some(c.data[k]), w.index(k), w.pos(k), n, w.keys.v(k)) {
      TruthfulLater(Some(c.data[k]), w.index(k), w.pos(k), c.last.value.head.size, n, w.keys.v(k));
    }
  }

  lemma MonitorStep<H(!new)>(hs: Hashes<H>, w: ClientWorld<H>, c: Client<H>, e: Event<H>)
    requires IsWorld(hs, w) && Accepts(hs, c, e) && e.Updated? && TrueClient(w, c)
    requires HeadOf(hs.tree, w.keys.log, HeadOfEvent(e)) && !EventClash(hs, w, c, e)
    requires c.last.Some? ==> NotBefore(HeadOfEvent(e), c.last.value)
    ensures TrueEvent(w, e) && TrueClient(w, After(c, e))
  {
    hide IsWorld, AcceptedMonitor, HeadClash, MonitorClash, IsLogOf, Rising, LogRoot;
    var n := e.head.head.size;
    var past := Earlier(w.keys, n);
    forall k | k in c.data
      ensures IsLogOf(hs, past.Of(k), c.data[k].index, c.data[k].pos) && Rising(past.v(k), c.data[k].pos)
    {
      EarlierIsLog(hs, w, n, k);
    }
    OthersStay(w, c, n, {});
    AcceptedMonitorIsTrue(hs, e.checks, e.keys, e.fth, e.proofs, e.inclusion, c.last, e.known, c.data, e.head, e.data,
                          e.entries, e.seen, past);
  }

  /** The state before each event is true, and so is the event, if all heads belong to the log. */
  lemma {:induction false} LifeIsTrue<H(!new)>(hs: Hashes<H>, w: ClientWorld<H>, start: Client<H>,
                                               events: seq<Event<H>>, i: nat)
    requires IsLife(hs, start, events) && IsWorld(hs, w) && TrueClient(w, start) && i <= |events|
    requires forall j :: 0 <= j < |events| ==> NamesKey(w, StateAfter(start, events, j), events[j])
    requires forall j :: 0 <= j < |events| ==> HeadOf(hs.tree, w.keys.log, HeadOfEvent(events[j]))
    requires forall j :: 0 <= j < |events| ==> !EventClash(hs, w, StateAfter(start, events, j), events[j])
    ensures TrueClient(w, StateAfter(start, events, i)) && forall j :: 0 <= j < i ==> TrueEvent(w, events[j])
    decreases i
  {
    hide Accepts, IsWorld, TrueClient, TrueEvent, EventClash, HeadOf, NotBefore, After, HeadOfEvent, NamesKey;
    if i > 0 {
      LifeIsTrue(hs, w, start, events, i - 1);
      var c, e := StateAfter(start, events, i - 1), events[i - 1];
      NeverBack(hs, c, e);
      if e.Searched? {
        SearchStep(hs, w, c, e);
      } else {
        MonitorStep(hs, w, c, e);
      }
    }
  }

  lemma NeverBack<H(!new)>(hs: Hashes<H>, c: Client<H>, e: Event<H>)
    requires Accepts(hs, c, e)
    ensures c.last.Some? ==> NotBefore(HeadOfEvent(e), c.last.value)
  {
    hide Accepts, Extends, AuditorAccepted, NotBefore, ResponseOf, HeadOfEvent;
    AcceptsHead(hs, c, e);
    if c.last.Some? {
      var r := ResponseOf(e);
      ExtendsMonotone(hs.tree, Rooted(r.fth.head.value, r.root), r.fth.last, c.last.value);
    }
  }

  /** All stored pointers lie in the last accepted tree, which is what both verifications ask for. */
  ghost predicate ValidClient<H>(c: Client<H>) {
    forall k :: k in c.data ==> c.last.Some? && PointersBelow(Some(c.data[k]), c.last.value.head.size)
  }

  /** It stays so for life, whatever the server sends. */
  lemma {:induction false} LifeIsValid<H(!new)>(hs: Hashes<H>, start: Client<H>, events: seq<Event<H>>, i: nat)
    requires IsLife(hs, start, events) && ValidClient(start) && i <= |events|
    ensures ValidClient(StateAfter(start, events, i))
    decreases i
  {
    hide Accepts, ValidClient, After;
    if i > 0 {
      LifeIsValid(hs, start, events, i - 1);
      StaysValid(hs, StateAfter(start, events, i - 1), events[i - 1]);
    }
  }

  lemma StaysValid<H(!new)>(hs: Hashes<H>, c: Client<H>, e: Event<H>)
    requires Accepts(hs, c, e) && ValidClient(c)
    ensures ValidClient(After(c, e))
  {
    NeverBack(hs, c, e);
    hide Accepted, Evaluated, RememberedVia, EvaluatedMonitor, UpdatedKeys, Keeps;
  }

  /** A client's whole life is true: if the last accepted root is that of a log, then every head ever accepted
      is that of a prefix of the log, every answer ever accepted was the least position of its version in the
      log as it was and opened the commitment there, and all stored pointers hold true versions at all times;
      or some response exhibits a collision of the hash functions with the log. */
  lemma WholeLifeIsTrue<H(!new)>(hs: Hashes<H>, w: ClientWorld<H>, start: Client<H>, events: seq<Event<H>>)
    requires IsLife(hs, start, events) && events != [] && IsWorld(hs, w) && TrueClient(w, start)
    requires forall j :: 0 <= j < |events| ==> NamesKey(w, StateAfter(start, events, j), events[j])
    requires HeadOf(hs.tree, w.keys.log, HeadOfEvent(events[|events| - 1]))
    ensures
      || (exists j :: 0 <= j < |events| && EventClash(hs, w, StateAfter(start, events, j), events[j]))
      || ((forall j :: 0 <= j < |events| ==>
             HeadOf(hs.tree, w.keys.log, HeadOfEvent(events[j])) && TrueEvent(w, events[j])) &&
           (forall j :: 0 <= j <= |events| ==> TrueClient(w, StateAfter(start, events, j))))
  {
    hide IsLife, IsWorld, TrueClient, TrueEvent, EventClash, HeadOf, NamesKey, HeadOfEvent, AcceptedRun;
    if forall j :: 0 <= j < |events| ==> !EventClash(hs, w, StateAfter(start, events, j), events[j]) {
      HeadsInHistory(hs, w, start, events);
      forall j | 0 <= j <= |events|
        ensures TrueClient(w, StateAfter(start, events, j)) && (j < |events| ==> TrueEvent(w, events[j]))
      {
        LifeIsTrue(hs, w, start, events, j);
        LifeIsTrue(hs, w, start, events, |events|);
      }
    }
  }

  lemma HeadsInHistory<H(!new)>(hs: Hashes<H>, w: ClientWorld<H>, start: Client<H>, events: seq<Event<H>>)
    requires IsLife(hs, start, events) && events != []
    requires HeadOf(hs.tree, w.keys.log, HeadOfEvent(events[|events| - 1]))
    requires forall j :: 0 <= j < |events| ==> !EventClash(hs, w, StateAfter(start, events, j), events[j])
    ensures forall j :: 0 <= j < |events| ==> HeadOf(hs.tree, w.keys.log, HeadOfEvent(events[j]))
  {
    hide HeadOf, IsLife, AcceptedRun, NoRunClash, EventClash, HeadOfEvent, HeadOfResponse, Responses, StateAfter,
         StoredBefore;
    var run := Responses(events);
    LifeIsRun(hs, start, events);
    HaveHeads(hs.tree, run, start.last);
    LifeHasNoClash(hs, w, start, events);
    HeadsAgree(hs, start, events, |events| - 1);
    forall j | 0 <= j < |events| ensures HeadOf(hs.tree, w.keys.log, HeadOfEvent(events[j])) {
      HeadsAgree(hs, start, events, j);
      HeadInHistory(hs.tree, run, start.last, w.keys.log, j);
    }
  }

  lemma HeadsAgree<H(!new)>(hs: Hashes<H>, start: Client<H>, events: seq<Event<H>>, j: nat)
    requires IsLife(hs, start, events) && j < |events|
    ensures var r := Responses(events)[j]; r.fth.head.Some? && HeadOfResponse(r) == HeadOfEvent(events[j])
  {
    hide Accepts, Accepted, After;
    AcceptsHead(hs, StateAfter(start, events, j), events[j]);
  }

  lemma LifeHasNoClash<H(!new)>(hs: Hashes<H>, w: ClientWorld<H>, start: Client<H>, events: seq<Event<H>>)
    requires forall i :: 0 <= i < |events| ==> Responses(events)[i].fth.head.Some?
    requires forall i :: 0 <= i < |events| ==>
      StateAfter(start, events, i).last == StoredBefore(Responses(events), start.last, i)
    requires forall j :: 0 <= j < |events| ==> !EventClash(hs, w, StateAfter(start, events, j), events[j])
    ensures NoRunClash(hs.tree, Responses(events), start.last, w.keys.log)
  {
    hide EventClash, HeadClash, ResponseOf, StateAfter, StoredBefore;
    var run := Responses(events);
    forall j | 0 <= j < |events|
      ensures !HeadClash(hs.tree, w.keys.log, run[j].fth, run[j].root, StoredBefore(run, start.last, j),
                         run[j].distinguished)
    {
      NoHeadClash(hs, w, StateAfter(start, events, j), events[j]);
    }
  }

  lemma NoHeadClash<H(!new)>(hs: Hashes<H>, w: ClientWorld<H>, c: Client<H>, e: Event<H>)
    requires !EventClash(hs, w, c, e)
    ensures var r := ResponseOf(e); !HeadClash(hs.tree, w.keys.log, r.fth, r.root, c.last, r.distinguished)
  {
    hide HeadClash;
  }
}
