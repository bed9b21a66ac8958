/** The data a client keeps to monitor a key, and how searches and monitor responses update it
    (verify.rs, `MonitoringDataWrapper`). */
module Monitoring {
  import opened Wrappers
  import opened LeftBalanced
  import opened ImplicitTree
  import opened Search

  datatype MonitoringData = MonitoringData(index: Index, pos: nat, ptrs: map<nat, nat>, owned: bool)

  // Following a pointer upwards --------------------------------------------------------------

  /** The version that the steps of a response give for a position, if they have one. */
  function VersionAt<H>(steps: map<nat, ProofStep<H>>, pos: nat): Result<Option<nat>, Error> {
    if pos !in steps then Ok(None)
    else if steps[pos].prefix.None? then Err(RequiredFieldMissing)
    else Ok(Some(steps[pos].prefix.value.counter))
  }

  /** Moves a mapping along a path as far as the steps give versions, which must not be below `ver`. */
  function Bubble<H>(path: seq<nat>, ver: nat, steps: map<nat, ProofStep<H>>, at: (nat, nat))
    : Result<(nat, nat), Error>
  {
    if path == [] then Ok(at)
    else
      match VersionAt(steps, path[0])
      case Err(e) => Err(e)
      case Ok(None) => Ok(at)
      case Ok(Some(v)) => if v < ver then Err(VerificationFailed) else Bubble(path[1..], ver, steps, (path[0], v))
  }

  /** Where a stored mapping moves to in a tree of n entries. */
  function Moved<H>(pos: nat, ver: nat, n: nat, steps: map<nat, ProofStep<H>>): Result<(nat, nat), Error> {
    Bubble(MonitoringPath(pos, n), ver, steps, (pos, ver))
  }

  method FindUpdatedMapping<H>(pos: nat, ver: nat, firstPos: nat, n: nat, steps: map<nat, ProofStep<H>>)
    returns (r: Result<Option<(nat, nat)>, Error>)
    requires firstPos <= pos < n
    ensures r.Ok? <==> Moved(pos, ver, n, steps).Ok?
    ensures r.Ok? ==> Moved(pos, ver, n, steps).value == if r.value.Some? then r.value.value else (pos, ver)
    ensures r != Err(NoReturn)
  {
    hide MonitoringPath;
    RangeHasPath(pos, firstPos, n);
    var walked := MonitoringPathOf(pos, firstPos, n);
    var path := walked.value;
    var updated: Option<(nat, nat)> := None;
    var i := 0;
    while i < |path|
      invariant 0 <= i <= |path|
      invariant Bubble(path[i..], ver, steps, if updated.Some? then updated.value else (pos, ver)) ==
        Moved(pos, ver, n, steps)
    {
      assert path[i..][1..] == path[i + 1..];
      match VersionAt(steps, path[i]) {
        case Err(e) => return Err(e);
        case Ok(None) => break;
        case Ok(Some(v)) =>
          if v < ver {
            return Err(VerificationFailed);
          }
          updated := Some((path[i], v));
      }
      i := i + 1;
    }
    return Ok(updated);
  }

  /** A mapping only moves up its own path, never to a lower version, and stops where the steps end. */
  lemma {:induction false} BubbleMoves<H>(path: seq<nat>, ver: nat, steps: map<nat, ProofStep<H>>, at: (nat, nat))
    requires Bubble(path, ver, steps, at).Ok? && at.1 >= ver
    ensures var (p, v) := Bubble(path, ver, steps, at).value;
      && v >= ver
      && ((p, v) == at || (p in path && VersionAt(steps, p) == Ok(Some(v))))
  {
    if path != [] && VersionAt(steps, path[0]) != Ok(None) {
      BubbleMoves(path[1..], ver, steps, (path[0], VersionAt(steps, path[0]).value.value));
    }
  }

  /** The index in the path at which a moved mapping ends; the steps have nothing for the next position. */
  lemma {:induction false} BubbleStops<H>(path: seq<nat>, ver: nat, steps: map<nat, ProofStep<H>>, at: (nat, nat))
    returns (i: nat)
    requires Bubble(path, ver, steps, at).Ok?
    ensures i <= |path| && Bubble(path, ver, steps, at).value.0 == (if i == 0 then at.0 else path[i - 1])
    ensures i < |path| ==> VersionAt(steps, path[i]) == Ok(None)
    decreases |path|
  {
    if path == [] || VersionAt(steps, path[0]) == Ok(None) {
      i := 0;
    } else {
      var j := BubbleStops(path[1..], ver, steps, (path[0], VersionAt(steps, path[0]).value.value));
      i := j + 1;
    }
  }

  /** How far a mapping moves: past exactly the leading positions of its path for which there are steps, to the
      last of these and its version. It fails iff one of them lacks a version or has one below its own. */
  lemma {:induction false} BubbleIs<H>(path: seq<nat>, ver: nat, steps: map<nat, ProofStep<H>>, at: (nat, nat), i: nat)
    requires i <= |path| && (forall j :: 0 <= j < i ==> path[j] in steps) && (i < |path| ==> path[i] !in steps)
    ensures Bubble(path, ver, steps, at).Ok? <==>
      forall j :: 0 <= j < i ==> steps[path[j]].prefix.Some? && steps[path[j]].prefix.value.counter >= ver
    ensures Bubble(path, ver, steps, at).Ok? ==>
      Bubble(path, ver, steps, at).value ==
      if i == 0 then at else (path[i - 1], steps[path[i - 1]].prefix.value.counter)
    decreases i
  {
    if i > 0 {
      var first := steps[path[0]].prefix;
      if first.Some? && first.value.counter >= ver {
        var rest := path[1..];
        assert forall j :: 0 <= j < |rest| ==> rest[j] == path[j + 1];
        BubbleIs(rest, ver, steps, (path[0], first.value.counter), i - 1);
        assert forall j :: 1 <= j < i ==> path[j] == rest[j - 1];
      }
    }
  }

  /** The same for a stored mapping and its monitoring path. */
  lemma MovedIs<H>(pos: nat, ver: nat, n: nat, steps: map<nat, ProofStep<H>>, i: nat)
    requires var path := MonitoringPath(pos, n);
      i <= |path| && (forall j :: 0 <= j < i ==> path[j] in steps) && (i < |path| ==> path[i] !in steps)
    ensures var path := MonitoringPath(pos, n);
      && (Moved(pos, ver, n, steps).Ok? <==>
           forall j :: 0 <= j < i ==> steps[path[j]].prefix.Some? && steps[path[j]].prefix.value.counter >= ver)
      && (Moved(pos, ver, n, steps).Ok? ==>
           Moved(pos, ver, n, steps).value ==
             if i == 0 then (pos, ver) else (path[i - 1], steps[path[i - 1]].prefix.value.counter))
  {
    hide MonitoringPath, Bubble;
    BubbleIs(MonitoringPath(pos, n), ver, steps, (pos, ver), i);
  }

  /** A stored mapping stays, or moves up its own monitoring path to a version at least as high. */
  lemma MovedGoesUp<H>(pos: nat, ver: nat, n: nat, steps: map<nat, ProofStep<H>>)
    requires Moved(pos, ver, n, steps).Ok?
    ensures var (q, v) := Moved(pos, ver, n, steps).value;
      (q, v) == (pos, ver) || (pos < q < n && InSubtree(pos, q) && v >= ver && VersionAt(steps, q) == Ok(Some(v)))
  {
    hide InSubtree;
    BubbleMoves(MonitoringPath(pos, n), ver, steps, (pos, ver));
    MonitoringPathIsAncestors(pos, n, Moved(pos, ver, n, steps).value.0);
  }

  /** Moving again with the same steps changes nothing. */
  lemma MovedIsIdempotent<H>(pos: nat, ver: nat, n: nat, steps: map<nat, ProofStep<H>>)
    requires Moved(pos, ver, n, steps).Ok?
    ensures var (p, v) := Moved(pos, ver, n, steps).value; Moved(p, v, n, steps) == Ok((p, v))
  {
    var path := MonitoringPath(pos, n);
    var (p, v) := Moved(pos, ver, n, steps).value;
    var i := BubbleStops(path, ver, steps, (pos, ver));
    if i > 0 {
      MonitoringPathSuffix(pos, n, i - 1);
      assert MonitoringPath(p, n) == path[i..];
    }
  }

  // Updating all pointers ------------------------------------------------------------------------

  /** Every mapping moves, and mappings that meet agree on the version. */
  ghost predicate CanUpdate<H>(ptrs: map<nat, nat>, n: nat, steps: map<nat, ProofStep<H>>) {
    && (forall p :: p in ptrs ==> Moved(p, ptrs[p], n, steps).Ok?)
    && (forall p, q :: p in ptrs && q in ptrs ==>
         (Moved(p, ptrs[p], n, steps).value.0 == Moved(q, ptrs[q], n, steps).value.0 ==>
           Moved(p, ptrs[p], n, steps).value.1 == Moved(q, ptrs[q], n, steps).value.1))
  }

  /** `updated` holds exactly the moved mappings of the pointers in `some`. */
  ghost predicate IsUpdate<H>(ptrs: map<nat, nat>, some: set<nat>, n: nat, steps: map<nat, ProofStep<H>>,
                              updated: map<nat, nat>)
    requires some <= ptrs.Keys
  {
    && (forall p :: p in some ==>
         && Moved(p, ptrs[p], n, steps).Ok?
         && var (q, v) := Moved(p, ptrs[p], n, steps).value; q in updated && updated[q] == v)
    && (forall q :: q in updated ==> exists p :: p in some && Moved(p, ptrs[p], n, steps).value.0 == q)
  }

  lemma UpdateIsUnique<H>(ptrs: map<nat, nat>, n: nat, steps: map<nat, ProofStep<H>>, a: map<nat, nat>,
                          b: map<nat, nat>)
    requires IsUpdate(ptrs, ptrs.Keys, n, steps, a) && IsUpdate(ptrs, ptrs.Keys, n, steps, b)
    ensures a == b
  {
    hide Moved;
    forall q | q in a ensures q in b && b[q] == a[q] {
      var p :| p in ptrs.Keys && Moved(p, ptrs[p], n, steps).value.0 == q;
    }
    forall q | q in b ensures q in a {
      var p :| p in ptrs.Keys && Moved(p, ptrs[p], n, steps).value.0 == q;
    }
  }

  /** Updating twice with the same steps is updating once. */
  lemma UpdateIsIdempotent<H>(ptrs: map<nat, nat>, n: nat, steps: map<nat, ProofStep<H>>, updated: map<nat, nat>)
    requires IsUpdate(ptrs, ptrs.Keys, n, steps, updated)
    ensures CanUpdate(updated, n, steps) && IsUpdate(updated, updated.Keys, n, steps, updated)
  {
    hide Moved;
    forall q | q in updated ensures Moved(q, updated[q], n, steps) == Ok((q, updated[q])) {
      var p :| p in ptrs.Keys && Moved(p, ptrs[p], n, steps).value.0 == q;
      MovedIsIdempotent(p, ptrs[p], n, steps);
    }
    forall q | q in updated ensures exists p :: p in updated.Keys && Moved(p, updated[p], n, steps).value.0 == q {
      assert Moved(q, updated[q], n, steps).value.0 == q;
    }
  }

  lemma UpdateNothing<H>(ptrs: map<nat, nat>, n: nat, steps: map<nat, ProofStep<H>>)
    ensures IsUpdate(ptrs, {}, n, steps, map[])
  {
  }

  lemma CannotMove<H>(ptrs: map<nat, nat>, n: nat, steps: map<nat, ProofStep<H>>, p: nat)
    requires p in ptrs && Moved(p, ptrs[p], n, steps).Err?
    ensures !CanUpdate(ptrs, n, steps)
  {
    hide Moved;
  }

  /** Adding one more pointer's moved mapping. */
  lemma UpdateOneMore<H>(ptrs: map<nat, nat>, some: set<nat>, n: nat, steps: map<nat, ProofStep<H>>,
                         updated: map<nat, nat>, p: nat)
    requires some <= ptrs.Keys && p in ptrs && IsUpdate(ptrs, some, n, steps, updated)
    requires Moved(p, ptrs[p], n, steps).Ok?
    ensures var (q, v) := Moved(p, ptrs[p], n, steps).value;
      && (q !in updated || updated[q] == v ==> IsUpdate(ptrs, some + {p}, n, steps, updated[q := v]))
      && (q in updated && updated[q] != v ==> !CanUpdate(ptrs, n, steps))
  {
    hide Moved;
    var (q, v) := Moved(p, ptrs[p], n, steps).value;
    if q !in updated || updated[q] == v {
      var updated', some' := updated[q := v], some + {p};
      forall x | x in updated' ensures exists y :: y in some' && Moved(y, ptrs[y], n, steps).value.0 == x {
        if x == q {
          assert Moved(p, ptrs[p], n, steps).value.0 == x;
        } else {
          var y :| y in some && Moved(y, ptrs[y], n, steps).value.0 == x;
        }
      }
    } else {
      var y :| y in some && Moved(y, ptrs[y], n, steps).value.0 == q;
    }
  }

  lemma UpdatePossible<H>(ptrs: map<nat, nat>, n: nat, steps: map<nat, ProofStep<H>>, updated: map<nat, nat>)
    requires IsUpdate(ptrs, ptrs.Keys, n, steps, updated)
    ensures CanUpdate(ptrs, n, steps)
  {
    hide Moved;
    forall p, q | p in ptrs && q in ptrs && Moved(p, ptrs[p], n, steps).value.0 == Moved(q, ptrs[q], n, steps).value.0
      ensures Moved(p, ptrs[p], n, steps).value.1 == Moved(q, ptrs[q], n, steps).value.1
    {
      assert p in ptrs.Keys && q in ptrs.Keys;
    }
  }

  // Checking search results ------------------------------------------------------------------------

  /** The version tracked at the first position of a path that has a pointer. */
  function FirstTracked(path: seq<nat>, ptrs: map<nat, nat>): Option<nat> {
    if path == [] then None
    else if path[0] in ptrs then Some(ptrs[path[0]])
    else FirstTracked(path[1..], ptrs)
  }

  /** The effect of a search result on the stored data. */
  function Checked(data: MonitoringData, n: nat, index: Index, zeroPos: nat, verPos: nat, version: nat, owned: bool)
    : Result<MonitoringData, Error>
  {
    var data' := data.(owned := data.owned || owned);
    if index != data.index || zeroPos != data.pos then Err(VerificationFailed)
    else if verPos in data.ptrs then
      if data.ptrs[verPos] != version then Err(VerificationFailed) else Ok(data')
    else
      match FirstTracked(MonitoringPath(verPos, n), data.ptrs)
      case Some(ver) => if ver < version then Err(VerificationFailed) else Ok(data')
      case None => Ok(data'.(ptrs := data.ptrs[verPos := version]))
  }

  /** The first tracked position of a path. */
  lemma {:induction false} FirstTrackedAt(path: seq<nat>, ptrs: map<nat, nat>, i: nat)
    requires i < |path| && path[i] in ptrs && forall j :: 0 <= j < i ==> path[j] !in ptrs
    ensures FirstTracked(path, ptrs) == Some(ptrs[path[i]])
    decreases |path|
  {
    if i > 0 {
      assert path[0] !in ptrs;
      FirstTrackedAt(path[1..], ptrs, i - 1);
    }
  }

  lemma {:induction false} FirstTrackedSome(path: seq<nat>, ptrs: map<nat, nat>) returns (i: nat)
    requires FirstTracked(path, ptrs).Some?
    ensures i < |path| && path[i] in ptrs && forall j :: 0 <= j < i ==> path[j] !in ptrs
    decreases |path|
  {
    if path[0] in ptrs {
      i := 0;
    } else {
      var k := FirstTrackedSome(path[1..], ptrs);
      i := k + 1;
      forall j | 0 <= j < i ensures path[j] !in ptrs {
        if j > 0 {
          assert path[j] == path[1..][j - 1];
        }
      }
    }
  }

  /** A search result passes iff it is about the stored key and first position, a pointer at its position has
      exactly its version, and otherwise the first tracked position further up has one at least as high. A
      pointer is added only if neither its position nor any further up is tracked. */
  lemma CheckedIs(d: MonitoringData, n: nat, index: Index, zeroPos: nat, verPos: nat, version: nat, owned: bool)
    ensures var path := MonitoringPath(verPos, n);
      Checked(d, n, index, zeroPos, verPos, version, owned).Ok? <==>
        && index == d.index && zeroPos == d.pos && (verPos in d.ptrs ==> d.ptrs[verPos] == version)
        && (verPos !in d.ptrs ==> forall i :: 0 <= i < |path| && path[i] in d.ptrs ==>
             (forall j :: 0 <= j < i ==> path[j] !in d.ptrs) ==> d.ptrs[path[i]] >= version)
    ensures var path := MonitoringPath(verPos, n);
      Checked(d, n, index, zeroPos, verPos, version, owned).Ok? ==>
        Checked(d, n, index, zeroPos, verPos, version, owned).value ==
          MonitoringData(d.index, d.pos,
                         if verPos in d.ptrs || exists p :: p in path && p in d.ptrs then d.ptrs
                         else d.ptrs[verPos := version],
                         d.owned || owned)
  {
    hide MonitoringPath, FirstTracked;
    var path := MonitoringPath(verPos, n);
    FirstTrackedIs(path, d.ptrs);
    if FirstTracked(path, d.ptrs).Some? {
      var i := FirstTrackedSome(path, d.ptrs);
      FirstTrackedAt(path, d.ptrs, i);
      assert path[i] in path;
    }
    forall i | 0 <= i < |path| && path[i] in d.ptrs && forall j :: 0 <= j < i ==> path[j] !in d.ptrs
      ensures FirstTracked(path, d.ptrs) == Some(d.ptrs[path[i]])
    {
      FirstTrackedAt(path, d.ptrs, i);
    }
  }

  class MonitoringDataWrapper {
    var inner: Option<MonitoringData>

    constructor (data: Option<MonitoringData>)
      ensures inner == data
    {
      inner := data;
    }

    method StartMonitoring(index: Index, zeroPos: nat, verPos: nat, version: nat, owned: bool)
      modifies this
      ensures inner ==
        if old(inner).None? then Some(MonitoringData(index, zeroPos, map[verPos := version], owned)) else old(inner)
    {
      if inner.None? {
        inner := Some(MonitoringData(index, zeroPos, map[verPos := version], owned));
      }
    }

    method CheckSearchConsistency(n: nat, index: Index, zeroPos: nat, verPos: nat, version: nat, owned: bool)
      returns (r: Result<(), Error>)
      requires zeroPos <= verPos < n
      modifies this
      ensures old(inner).None? ==> r.Ok? && inner == None
      ensures old(inner).Some? ==>
        var checked := Checked(old(inner).value, n, index, zeroPos, verPos, version, owned);
        (r.Ok? <==> checked.Ok?) && inner == if r.Ok? then Some(checked.value) else old(inner)
      ensures old(inner).Some? ==>
        var d, path := old(inner).value, MonitoringPath(verPos, n);
        r.Ok? <==>
          && index == d.index && zeroPos == d.pos && (verPos in d.ptrs ==> d.ptrs[verPos] == version)
          && (verPos !in d.ptrs ==> forall i :: 0 <= i < |path| && path[i] in d.ptrs ==>
               (forall j :: 0 <= j < i ==> path[j] !in d.ptrs) ==> d.ptrs[path[i]] >= version)
      ensures old(inner).Some? && r.Ok? ==>
        var d, path := old(inner).value, MonitoringPath(verPos, n);
        && inner.Some? && inner.value.index == d.index && inner.value.pos == d.pos
        && (inner.value.owned <==> d.owned || owned)
        && inner.value.ptrs ==
             if verPos in d.ptrs || exists p :: p in path && p in d.ptrs then d.ptrs else d.ptrs[verPos := version]
      ensures r != Err(NoReturn)
    {
      hide MonitoringPath;
      if inner.Some? {
        CheckedIs(inner.value, n, index, zeroPos, verPos, version, owned);
      }
      if inner.None? {
        return Ok(());
      }
      var data := inner.value;
      if index != data.index {
        return Err(VerificationFailed);
      }
      if zeroPos != data.pos {
        return Err(VerificationFailed);
      }
      if verPos in data.ptrs {
        if data.ptrs[verPos] != version {
          return Err(VerificationFailed);
        }
      } else {
        RangeHasPath(verPos, zeroPos, n);
        var walked := MonitoringPathOf(verPos, zeroPos, n);
        var path := walked.value;
        var i := 0;
        while i < |path| && path[i] !in data.ptrs
          invariant 0 <= i <= |path| && FirstTracked(path, data.ptrs) == FirstTracked(path[i..], data.ptrs)
        {
          assert path[i..][1..] == path[i + 1..];
          i := i + 1;
        }
        if i < |path| {
          if data.ptrs[path[i]] < version {
            return Err(VerificationFailed);
          }
        } else {
          data := data.(ptrs := data.ptrs[verPos := version]);
        }
      }
      if !data.owned && owned {
        data := data.(owned := true);
      }
      inner := Some(data);
      return Ok(());
    }

    /** Moves the pointers, taking them in any order. The outcome does not depend on the order: success
        is decided by `CanUpdate`, and by `UpdateIsUnique` only one map satisfies `IsUpdate`. */
    method Update<H>(n: nat, steps: map<nat, ProofStep<H>>) returns (r: Result<(), Error>)
      requires inner.Some? ==> forall p :: p in inner.value.ptrs ==> inner.value.pos <= p < n
      modifies this
      ensures old(inner).None? ==> r.Ok? && inner == None
      ensures old(inner).Some? ==> (r.Ok? <==> CanUpdate(old(inner).value.ptrs, n, steps))
      ensures old(inner).Some? && r.Ok? ==>
        && inner.Some? && inner == Some(old(inner).value.(ptrs := inner.value.ptrs))
        && IsUpdate(old(inner).value.ptrs, old(inner).value.ptrs.Keys, n, steps, inner.value.ptrs)
      ensures r.Err? ==> inner == old(inner) && r.error != NoReturn
    {
      hide Moved, IsUpdate, CanUpdate;
      if inner.None? {
        return Ok(());
      }
      var data := inner.value;
      var ptrs := data.ptrs;
      var updated: map<nat, nat> := map[];
      UpdateNothing(ptrs, n, steps);
      assert ptrs.Keys - ptrs.Keys == {};
      var rest := ptrs.Keys;
      while rest != {}
        invariant rest <= ptrs.Keys && inner == old(inner)
        invariant IsUpdate(ptrs, ptrs.Keys - rest, n, steps, updated)
        decreases |rest|
      {
        var p :| p in rest;
        var found := FindUpdatedMapping(p, ptrs[p], data.pos, n, steps);
        if found.Err? {
          CannotMove(ptrs, n, steps, p);
          return Err(found.error);
        }
        UpdateOneMore(ptrs, ptrs.Keys - rest, n, steps, updated, p);
        assert ptrs.Keys - (rest - {p}) == ptrs.Keys - rest + {p};
        var (q, v) := if found.value.Some? then found.value.value else (p, ptrs[p]);
        if q in updated && updated[q] != v {
          return Err(VerificationFailed);
        }
        updated := updated[q := v];
        rest := rest - {p};
      }
      assert ptrs.Keys - {} == ptrs.Keys;
      UpdatePossible(ptrs, n, steps, updated);
      inner := Some(data.(ptrs := updated));
      return Ok(());
    }
  }

  // What is tracked stays tracked ----------------------------------------------------------------------

  /** A pointer covers a mapping: it is at its position or further up its monitoring path, with a version
      at least as high. */
  ghost predicate Tracked(ptrs: map<nat, nat>, p: nat, ver: nat, n: nat) {
    exists q :: q in ptrs && ptrs[q] >= ver && (q == p || q in MonitoringPath(p, n))
  }

  /** Stored data keeps its key, its ownership and, on their own paths, all its mappings. */
  ghost predicate Keeps(s: Option<MonitoringData>, s': Option<MonitoringData>, n: nat) {
    s.Some? ==>
      && s'.Some? && s'.value.index == s.value.index && s'.value.pos == s.value.pos
      && (s.value.owned ==> s'.value.owned)
      && forall p :: p in s.value.ptrs ==> Tracked(s'.value.ptrs, p, s.value.ptrs[p], n)
  }

  /** Monitoring paths run into each other. */
  lemma PathOn(p: nat, q: nat, r: nat, n: nat, n': nat)
    requires n <= n' && (q == p || q in MonitoringPath(p, n)) && (r == q || r in MonitoringPath(q, n'))
    ensures r == p || r in MonitoringPath(p, n')
  {
    hide MonitoringPath, Lo, Hi;
    MonitoringPathIsAncestors(p, n, q);
    MonitoringPathIsAncestors(q, n', r);
    MonitoringPathIsAncestors(p, n', r);
    MonitoringPathIsAncestors(p, n', q);
    if q != p && r != q {
      Nested(q, r);
      LeafOrNot(q);
    }
  }

  lemma TrackedOn(ptrs: map<nat, nat>, ptrs': map<nat, nat>, p: nat, ver: nat, n: nat, n': nat)
    requires n <= n' && Tracked(ptrs, p, ver, n) && forall q :: q in ptrs ==> Tracked(ptrs', q, ptrs[q], n')
    ensures Tracked(ptrs', p, ver, n')
  {
    hide MonitoringPath;
    var q :| q in ptrs && ptrs[q] >= ver && (q == p || q in MonitoringPath(p, n));
    var r :| r in ptrs' && ptrs'[r] >= ptrs[q] && (r == q || r in MonitoringPath(q, n'));
    PathOn(p, q, r, n, n');
  }

  lemma KeepsTransitive(a: Option<MonitoringData>, b: Option<MonitoringData>, c: Option<MonitoringData>, n: nat,
                        n': nat)
    requires n <= n' && Keeps(a, b, n) && Keeps(b, c, n')
    ensures Keeps(a, c, n')
  {
    hide Tracked;
    if a.Some? {
      forall p | p in a.value.ptrs ensures Tracked(c.value.ptrs, p, a.value.ptrs[p], n') {
        TrackedOn(b.value.ptrs, c.value.ptrs, p, a.value.ptrs[p], n, n');
      }
    }
  }

  lemma KeepsItself(s: Option<MonitoringData>, n: nat)
    ensures Keeps(s, s, n)
  {
    hide MonitoringPath;
    if s.Some? {
      forall p | p in s.value.ptrs ensures Tracked(s.value.ptrs, p, s.value.ptrs[p], n) {
      }
    }
  }

  /** After an update no pointer has a step for the next position of its path: all have moved as far as the
      steps go. */
  lemma UpdateSettles<H>(ptrs: map<nat, nat>, n: nat, steps: map<nat, ProofStep<H>>, updated: map<nat, nat>)
    requires IsUpdate(ptrs, ptrs.Keys, n, steps, updated)
    ensures forall q :: q in updated ==> MonitoringPath(q, n) == [] || MonitoringPath(q, n)[0] !in steps
  {
    hide Moved, MonitoringPath;
    forall q | q in updated ensures MonitoringPath(q, n) == [] || MonitoringPath(q, n)[0] !in steps {
      var p :| p in ptrs.Keys && Moved(p, ptrs[p], n, steps).value.0 == q;
      MovedIsIdempotent(p, ptrs[p], n, steps);
      StaysMeans(q, updated[q], n, steps);
    }
  }

  lemma StaysMeans<H>(q: nat, ver: nat, n: nat, steps: map<nat, ProofStep<H>>)
    requires Moved(q, ver, n, steps) == Ok((q, ver))
    ensures MonitoringPath(q, n) == [] || MonitoringPath(q, n)[0] !in steps
  {
    MonitoringPathIncreasing(q, n);
    hide MonitoringPath;
    var path := MonitoringPath(q, n);
    if path != [] && path[0] in steps {
      assert q !in path && path[0] in path && forall p :: p in path[1..] ==> p in path;
      BubbleMoves(path[1..], ver, steps, (path[0], VersionAt(steps, path[0]).value.value));
    }
  }

  lemma UpdateTracks<H>(ptrs: map<nat, nat>, n: nat, steps: map<nat, ProofStep<H>>, updated: map<nat, nat>)
    requires IsUpdate(ptrs, ptrs.Keys, n, steps, updated)
    ensures forall p :: p in ptrs ==> Tracked(updated, p, ptrs[p], n)
  {
    hide Moved, MonitoringPath;
    forall p | p in ptrs ensures Tracked(updated, p, ptrs[p], n) {
      assert p in ptrs.Keys;
      MovedGoesUp(p, ptrs[p], n, steps);
      MonitoringPathIsAncestors(p, n, Moved(p, ptrs[p], n, steps).value.0);
      assert Moved(p, ptrs[p], n, steps).value.0 in updated;
    }
  }

  /** No operation, whatever the server sends, loses a mapping. */
  lemma StepKeeps<H>(op: Operation<H>, index: Index, pos: nat, s: Option<MonitoringData>, s': Option<MonitoringData>,
                     ok: bool)
    requires Step(op, index, pos, s, s', ok)
    ensures Keeps(s, s', op.size)
  {
    hide Moved, MonitoringPath, CanUpdate, IsUpdate, FirstTracked;
    KeepsItself(s, op.size);
    match op {
      case Start(_, _, _, _) =>
      case Check(n, p, ver, owned) =>
        if s.Some? && ok {
          forall q | q in s.value.ptrs ensures Tracked(s'.value.ptrs, q, s.value.ptrs[q], n) {
            assert q in s'.value.ptrs && s'.value.ptrs[q] == s.value.ptrs[q];
          }
        }
      case Update(n, steps) =>
        if s.Some? && ok {
          UpdateTracks(s.value.ptrs, n, steps, s'.value.ptrs);
        }
    }
  }

  /** A search result that passes the check is tracked. */
  lemma CheckTracks<H>(n: nat, p: nat, ver: nat, owned: bool, index: Index, pos: nat, s: Option<MonitoringData>,
                       s': Option<MonitoringData>)
    requires Step(Operation<H>.Check(n, p, ver, owned), index, pos, s, s', true)
    ensures s.Some? ==> s'.Some? && Tracked(s'.value.ptrs, p, ver, n) && (owned ==> s'.value.owned)
  {
    hide MonitoringPath, FirstTracked;
    if s.Some? {
      FirstTrackedIs(MonitoringPath(p, n), s.value.ptrs);
      if p !in s.value.ptrs && FirstTracked(MonitoringPath(p, n), s.value.ptrs).Some? {
        assert s'.value.ptrs == s.value.ptrs;
      } else {
        assert p in s'.value.ptrs && s'.value.ptrs[p] == ver;
      }
    }
  }

  /** Over every run, honest or not, with sizes that never fall: a mapping tracked at some time is at
      every later time covered by a pointer on its own monitoring path. Each response names an index and a
      first position of its own. */
  lemma {:induction false} RunKeeps<H>(ops: seq<Operation<H>>, index: seq<Index>, pos: seq<nat>,
                                       states: seq<Option<MonitoringData>>, oks: seq<bool>, i: nat, j: nat)
    requires |states| == |ops| + 1 && |oks| == |index| == |pos| == |ops| && i < j <= |ops|
    requires forall t :: 0 <= t < |ops| ==> Step(ops[t], index[t], pos[t], states[t], states[t + 1], oks[t])
    requires forall t :: 0 <= t < |ops| - 1 ==> ops[t].size <= ops[t + 1].size
    ensures Keeps(states[i], states[j], ops[j - 1].size)
    decreases j
  {
    hide Step, Keeps;
    StepKeeps(ops[j - 1], index[j - 1], pos[j - 1], states[j - 1], states[j], oks[j - 1]);
    if i < j - 1 {
      RunKeeps(ops, index, pos, states, oks, i, j - 1);
      KeepsTransitive(states[i], states[j - 1], states[j], ops[j - 2].size, ops[j - 1].size);
    }
  }

  // Runs against an honest log -----------------------------------------------------------------------

  /** The stored data is about the key, and every pointer holds the true version of its position. */
  ghost predicate Truthful(inner: Option<MonitoringData>, index: Index, pos: nat, n: nat, v: nat -> nat) {
    inner.Some? ==>
      && inner.value.index == index && inner.value.pos == pos
      && forall p :: p in inner.value.ptrs ==> pos <= p < n && inner.value.ptrs[p] == v(p)
  }

  /** Steps that give true versions from the key's first position on. */
  ghost predicate TruthfulSteps<H>(steps: map<nat, ProofStep<H>>, v: nat -> nat, pos: nat) {
    forall p :: p in steps && p >= pos ==> steps[p].prefix.Some? && steps[p].prefix.value.counter == v(p)
  }

  ghost predicate Rising(v: nat -> nat, pos: nat) {
    forall i: nat, j: nat :: pos <= i <= j ==> v(i) <= v(j)
  }

  /** What a client does with its data, after responses for trees of `size` entries. */
  datatype Operation<+H> =
    | Start(size: nat, verPos: nat, version: nat, owned: bool)
    | Check(size: nat, verPos: nat, version: nat, owned: bool)
    | Update(size: nat, steps: map<nat, ProofStep<H>>)

  ghost predicate Honest<H>(op: Operation<H>, pos: nat, v: nat -> nat) {
    match op
    case Start(n, p, ver, _) => pos <= p < n && ver == v(p)
    case Check(n, p, ver, _) => pos <= p < n && ver == v(p)
    case Update(_, steps) => TruthfulSteps(steps, v, pos)
  }

  /** One operation, as the methods of `MonitoringDataWrapper` specify it. */
  ghost predicate Step<H>(op: Operation<H>, index: Index, pos: nat, s: Option<MonitoringData>,
                          s': Option<MonitoringData>, ok: bool) {
    match op
    case Start(n, p, ver, owned) =>
      ok && s' == if s.None? then Some(MonitoringData(index, pos, map[p := ver], owned)) else s
    case Check(n, p, ver, owned) =>
      if s.None? then ok && s' == None
      else
        var checked := Checked(s.value, n, index, pos, p, ver, owned);
        ok == checked.Ok? && s' == if ok then Some(checked.value) else s
    case Update(n, steps) =>
      if s.None? then ok && s' == None
      else
        && ok == CanUpdate(s.value.ptrs, n, steps)
        && (!ok ==> s' == s)
        && (ok ==>
             && s'.Some? && s' == Some(s.value.(ptrs := s'.value.ptrs))
             && IsUpdate(s.value.ptrs, s.value.ptrs.Keys, n, steps, s'.value.ptrs))
  }

  lemma {:induction false} BubbleIsTrue<H>(path: seq<nat>, ver: nat, steps: map<nat, ProofStep<H>>, at: (nat, nat),
                                           v: nat -> nat, pos: nat)
    requires TruthfulSteps(steps, v, pos) && Rising(v, pos) && at.1 == v(at.0) >= ver
    requires forall p :: p in path ==> pos <= p && ver <= v(p)
    ensures Bubble(path, ver, steps, at).Ok?
    ensures Bubble(path, ver, steps, at).value.1 == v(Bubble(path, ver, steps, at).value.0)
    decreases |path|
  {
    if path != [] {
      assert path[0] in path;
      if path[0] in steps {
        assert forall p :: p in path[1..] ==> p in path;
        BubbleIsTrue(path[1..], ver, steps, (path[0], v(path[0])), v, pos);
      }
    }
  }

  lemma MovedIsTrue<H>(p: nat, n: nat, steps: map<nat, ProofStep<H>>, v: nat -> nat, pos: nat)
    requires TruthfulSteps(steps, v, pos) && Rising(v, pos) && pos <= p < n
    ensures Moved(p, v(p), n, steps).Ok?
    ensures var (q, ver) := Moved(p, v(p), n, steps).value; pos <= q < n && ver == v(q)
  {
    var path := MonitoringPath(p, n);
    MonitoringPathIncreasing(p, n);
    hide MonitoringPath;
    BubbleIsTrue(path, v(p), steps, (p, v(p)), v, pos);
    BubbleMoves(path, v(p), steps, (p, v(p)));
  }

  lemma {:induction false} FirstTrackedIs(path: seq<nat>, ptrs: map<nat, nat>)
    ensures match FirstTracked(path, ptrs)
            case Some(ver) => exists p :: p in path && p in ptrs && ptrs[p] == ver
            case None => forall p :: p in path ==> p !in ptrs
  {
    if path != [] && path[0] !in ptrs {
      FirstTrackedIs(path[1..], ptrs);
      assert path == [path[0]] + path[1..];
    } else if path != [] {
      assert path[0] in path;
    }
  }

  /** Against an honest log no operation fails, and the pointers stay truthful. */
  lemma HonestStep<H>(op: Operation<H>, index: Index, pos: nat, n: nat, v: nat -> nat, s: Option<MonitoringData>,
                      s': Option<MonitoringData>, ok: bool)
    requires Rising(v, pos) && Honest(op, pos, v) && n <= op.size && Truthful(s, index, pos, n, v)
    requires Step(op, index, pos, s, s', ok)
    ensures ok && Truthful(s', index, pos, op.size, v)
  {
    hide Moved, MonitoringPath;
    match op {
      case Start(_, _, _, _) =>
      case Check(size, p, ver, owned) =>
        if s.Some? {
          FirstTrackedIs(MonitoringPath(p, size), s.value.ptrs);
          MonitoringPathIncreasing(p, size);
        }
      case Update(size, steps) =>
        if s.Some? {
          var ptrs := s.value.ptrs;
          forall p | p in ptrs ensures Moved(p, ptrs[p], size, steps).Ok? &&
              var (q, ver) := Moved(p, ptrs[p], size, steps).value; pos <= q < size && ver == v(q) {
            MovedIsTrue(p, size, steps, v, pos);
          }
        }
    }
  }

  /** Monitoring is safe over runs: with versions that never decrease along the log and tree sizes that
      never decrease over time, no sequence of operations fails, and every stored pointer stays inside
      the log with its true version. */
  lemma {:induction false} HonestRun<H>(ops: seq<Operation<H>>, index: Index, pos: nat, v: nat -> nat, n: nat,
                                        states: seq<Option<MonitoringData>>, oks: seq<bool>)
    requires Rising(v, pos) && |states| == |ops| + 1 && |oks| == |ops| && Truthful(states[0], index, pos, n, v)
    requires forall i :: 0 <= i < |ops| ==>
      Honest(ops[i], pos, v) && Step(ops[i], index, pos, states[i], states[i + 1], oks[i])
    requires |ops| > 0 ==> n <= ops[0].size
    requires forall i :: 0 <= i < |ops| - 1 ==> ops[i].size <= ops[i + 1].size
    ensures forall i :: 0 <= i < |ops| ==> oks[i] && Truthful(states[i + 1], index, pos, ops[i].size, v)
    decreases |ops|
  {
    hide Step, Honest, Truthful, Rising;
    if |ops| > 0 {
      var m := |ops| - 1;
      HonestRun(ops[..m], index, pos, v, n, states[..m + 1], oks[..m]);
      var before := if m == 0 then n else ops[m - 1].size;
      assert m > 0 ==> ops[..m][m - 1] == ops[m - 1];
      HonestStep(ops[m], index, pos, before, v, states[m], states[m + 1], oks[m]);
    }
  }
}
