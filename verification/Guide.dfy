/** The search over the Implicit Binary Search Tree that decides which log entries a search proof
    has to look up (guide.rs). */
module Guide {
  import opened Wrappers
  import opened Bits
  import opened LeftBalanced
  import opened ImplicitTree
  import opened Sequences

  datatype VersionedId = VersionedId(id: nat, version: nat)

  datatype InvalidState = InvalidState

  // Sorting by id -----------------------------------------------------------------

  function IdOf(v: VersionedId): nat { v.id }

  ghost predicate OrderedById(s: seq<VersionedId>) {
    forall i, j :: 0 <= i < j < |s| ==> s[i].id <= s[j].id
  }

  function SortById(s: seq<VersionedId>): seq<VersionedId> {
    SortBy(IdOf, s)
  }

  lemma SortByIdSorts(s: seq<VersionedId>)
    ensures OrderedById(SortById(s)) && multiset(SortById(s)) == multiset(s)
  {
    SortByOrders(IdOf, s);
    var t := SortBy(IdOf, s);
    assert forall i, j :: 0 <= i < j < |t| ==> IdOf(t[i]) <= IdOf(t[j]);
  }

  predicate Monotonic(s: seq<VersionedId>) {
    forall i :: 0 <= i < |s| - 1 ==> s[i].version <= s[i + 1].version
  }

  lemma {:induction false} MonotonicFar(s: seq<VersionedId>, i: nat, j: nat)
    requires Monotonic(s) && i <= j < |s|
    ensures s[i].version <= s[j].version
    decreases j
  {
    if i < j {
      MonotonicFar(s, i, j - 1);
    }
  }

  // What the looked-up counters prove ------------------------------------------------

  ghost predicate SeenBelow(f: seq<VersionedId>, id: nat, t: nat) {
    exists i :: 0 <= i < |f| && f[i].id == id && f[i].version < t
  }

  ghost predicate SeenAtLeast(f: seq<VersionedId>, id: nat, t: nat) {
    exists i :: 0 <= i < |f| && f[i].id == id && f[i].version >= t
  }

  /** The counters are below t just left of `a` and at least t from `b` on. */
  ghost predicate Pinned(f: seq<VersionedId>, t: nat, pos: nat, n: nat, a: nat, b: nat) {
    && (a == pos || (a > 0 && SeenBelow(f, a - 1, t)))
    && (b == n || SeenAtLeast(f, b, t))
  }

  /** The positions of [pos, n) below node x. */
  function WindowLo(pos: nat, x: nat): nat { Max(pos, Lo(x)) }

  function WindowHi(n: nat, x: nat): nat { Min(n, Hi(x) + 1) }

  ghost predicate Window(f: seq<VersionedId>, t: nat, pos: nat, n: nat, x: nat) {
    Pinned(f, t, pos, n, WindowLo(pos, x), WindowHi(n, x))
  }

  ghost predicate Nondecreasing(v: nat -> nat, pos: nat, n: nat) {
    forall i: nat, j: nat :: pos <= i <= j < n ==> v(i) <= v(j)
  }

  ghost predicate Agrees(v: nat -> nat, f: seq<VersionedId>) {
    forall i :: 0 <= i < |f| ==> f[i].version == v(f[i].id)
  }

  ghost predicate IsLeast(v: nat -> nat, pos: nat, n: nat, t: nat, id: nat) {
    pos <= id < n && v(id) == t && forall i: nat :: pos <= i < id ==> v(i) != t
  }

  /** `r` is the answer the looked-up counters f force: the first position at or above version t. */
  ghost predicate Settles(f: seq<VersionedId>, t: nat, pos: nat, n: nat, r: Option<(nat, nat)>) {
    exists b: nat :: pos <= b <= n && Pinned(f, t, pos, n, b, b) && SettlesAt(f, t, n, b, r)
  }

  ghost predicate SettlesAt(f: seq<VersionedId>, t: nat, n: nat, b: nat, r: Option<(nat, nat)>) {
    match r
    case Some((i, id)) => id == b && b < n && i < |f| && f[i] == VersionedId(id, t)
    case None => b == n || SeenAtLeast(f, b, t + 1)
  }

  /** With counters that never decrease along the log, a settled search is the leftmost search. */
  lemma SettledIsLeftmost(v: nat -> nat, f: seq<VersionedId>, t: nat, pos: nat, n: nat, r: Option<(nat, nat)>)
    requires Nondecreasing(v, pos, n) && Agrees(v, f)
    requires forall i :: 0 <= i < |f| ==> pos <= f[i].id < n
    requires Settles(f, t, pos, n, r)
    ensures r.Some? ==> IsLeast(v, pos, n, t, r.value.1)
    ensures r.None? ==> forall i: nat :: pos <= i < n ==> v(i) != t
  {
    var b: nat :| pos <= b <= n && Pinned(f, t, pos, n, b, b) && SettlesAt(f, t, n, b, r);
    forall i: nat | pos <= i < b ensures v(i) < t {
      assert v(i) <= v(b - 1);
    }
    if r.None? && b < n {
      forall i: nat | b <= i < n ensures v(i) > t {
        assert v(b) <= v(i);
      }
    }
  }

  // The search as a function of the counters ---------------------------------------------------

  /** Binary search for the first counter at or above t in [a, b): the positions it looks at. */
  ghost function Asks(v: nat -> nat, t: nat, a: nat, b: nat): seq<nat>
    decreases if a < b then b - a else 0
  {
    if a >= b then [] else
      var r := CoverOf(a, b);
      [r] + if v(r) < t then Asks(v, t, r + 1, b) else Asks(v, t, a, r)
  }

  /** The first member of a list with version t. */
  ghost function FirstWith(v: nat -> nat, t: nat, s: seq<nat>): nat
    requires exists i :: 0 <= i < |s| && v(s[i]) == t
  {
    if v(s[0]) == t then s[0] else
      assert s == [s[0]] + s[1..];
      FirstWith(v, t, s[1..])
  }

  /** All positions a search looks at, in order: for the most recent version first the frontier, then
      a binary search left of the frontier's first member with that version. */
  ghost function AskedIds(v: nat -> nat, wanted: Option<nat>, pos: nat, n: nat): seq<nat>
    requires pos < n
  {
    match wanted
    case Some(t) => Asks(v, t, pos, n)
    case None =>
      var fr, t := Frontier(pos, n), v(n - 1);
      var f := FirstWith(v, t, fr);
      fr + Asks(v, t, WindowLo(pos, f), f)
  }

  lemma GoLeft(f: seq<VersionedId>, t: nat, pos: nat, n: nat, last: nat, next: nat)
    requires Window(f, t, pos, n, last) && pos < last < n && SeenAtLeast(f, last, t)
    requires Covers(next, Max(pos, Lo(last)), last) && Lo(last) <= Lo(next) && Hi(next) == last - 1
    ensures Window(f, t, pos, n, next)
    ensures WindowLo(pos, next) == WindowLo(pos, last) && WindowHi(n, next) == last
  {
  }

  lemma GoRight(f: seq<VersionedId>, t: nat, pos: nat, n: nat, last: nat, next: nat)
    requires Window(f, t, pos, n, last) && pos <= last && last + 1 < n && SeenBelow(f, last, t)
    requires Covers(next, last + 1, Min(n, Hi(last) + 1)) && Lo(next) == last + 1 && Hi(next) <= Hi(last)
    ensures Window(f, t, pos, n, next)
    ensures WindowLo(pos, next) == last + 1 && WindowHi(n, next) == WindowHi(n, last)
  {
  }

  ghost predicate Fetched(f: seq<VersionedId>, ids: seq<nat>) {
    |f| <= |ids| && forall i :: 0 <= i < |f| ==> f[i].id == ids[i]
  }

  ghost predicate Distinct(ids: seq<nat>) {
    forall i, j :: 0 <= i < j < |ids| ==> ids[i] != ids[j]
  }

  /** After the frontier is fetched, its first member with the greatest version opens the search. */
  lemma FrontierWindow(f: seq<VersionedId>, s: seq<VersionedId>, pos: nat, n: nat, k: nat)
    requires pos < n && |f| == |Frontier(pos, n)| && Fetched(f, Frontier(pos, n))
    requires multiset(s) == multiset(f) && OrderedById(s) && Monotonic(s) && k < |s|
    requires var t := s[|s| - 1].version; s[k].version == t && forall i :: 0 <= i < k ==> s[i].version != t
    ensures Window(f, s[|s| - 1].version, pos, n, s[k].id)
    ensures n <= Hi(s[k].id) + 1
    ensures forall a :: a in Frontier(pos, n) && a < s[k].id ==> a < Lo(s[k].id)
  {
    hide Lo, Hi, InSubtree, FrontierTo;
    var t, x := s[|s| - 1].version, s[k].id;
    var fr := Frontier(pos, n);
    assert s[k] in multiset(f);
    assert x in fr;
    FrontierIsAncestors(pos, n - 1, x);
    InSubtreeDef(n - 1, x);
    forall a | a in fr && a < x ensures a < Lo(x) {
      FrontierIsAncestors(pos, n - 1, a);
      InSubtreeDef(n - 1, a);
      InSubtreeDef(x, a);
      AncestorsOutside(x, a);
    }
    if Lo(x) > pos {
      var g := Lo(x) - 1;
      PredecessorInFrontier(pos, n, x);
      var i :| 0 <= i < |fr| && fr[i] == g;
      assert f[i] in multiset(s);
      var j :| 0 <= j < |s| && s[j] == f[i];
      assert j < k;
      MonotonicFar(s, j, |s| - 1);
      assert SeenBelow(f, g, t);
    }
  }

  lemma PredecessorInFrontier(pos: nat, n: nat, x: nat)
    requires pos < n && x in Frontier(pos, n) && Lo(x) > pos
    ensures Lo(x) - 1 in Frontier(pos, n)
  {
    hide Lo, Hi, FrontierTo;
    FrontierIsAncestors(pos, n - 1, x);
    LeftAncestor(x);
    Nested(x, Lo(x) - 1);
    FrontierIsAncestors(pos, n - 1, Lo(x) - 1);
  }

  /** More lookups never unsettle what earlier ones established. */
  lemma PinnedExtends(f: seq<VersionedId>, v: VersionedId, t: nat, pos: nat, n: nat, a: nat, b: nat)
    requires Pinned(f, t, pos, n, a, b)
    ensures Pinned(f + [v], t, pos, n, a, b)
  {
    var g := f + [v];
    assert forall i :: 0 <= i < |f| ==> g[i] == f[i];
  }

  /** The search has been narrowed to the window below the last id, of which nothing else was asked. */
  ghost predicate Narrowed(f: seq<VersionedId>, ids: seq<nat>, t: nat, pos: nat, n: nat, limit: nat)
    requires ids != []
  {
    var last := ids[|ids| - 1];
    && |f| >= |ids| - 1
    && Window(f, t, pos, n, last)
    && (forall i :: 0 <= i < |ids| - 1 ==> !(WindowLo(pos, last) <= ids[i] < WindowHi(n, last)))
    && |ids| + Level(last) <= limit
  }

  /** `last` is where the search goes on from: unasked on its left, and on its right if it matters. */
  ghost predicate Branching(f: seq<VersionedId>, ids: seq<nat>, t: nat, pos: nat, n: nat, limit: nat, last: nat,
                            ctr: nat) {
    && last in ids && VersionedId(last, ctr) in f
    && Window(f, t, pos, n, last)
    && (forall i :: 0 <= i < |ids| ==> !(WindowLo(pos, last) <= ids[i] < last))
    && (ctr < t ==> forall i :: 0 <= i < |ids| ==> !(last < ids[i] < WindowHi(n, last)))
    && |ids| + Level(last) <= limit
  }

  ghost function Target(v: nat -> nat, wanted: Option<nat>, n: nat): nat
    requires n > 0
  {
    if wanted.Some? then wanted.value else v(n - 1)
  }

  /** As long as the fetched counters are those of v, the ids are the first ones v asks for, and the
      window below the last one is what remains. */
  ghost predicate OnTrack(v: nat -> nat, wanted: Option<nat>, pos: nat, n: nat, f: seq<VersionedId>, ids: seq<nat>,
                          t: nat)
    requires pos < n && ids != []
  {
    Agrees(v, f) ==>
      var last := ids[|ids| - 1];
      && t == Target(v, wanted, n)
      && AskedIds(v, wanted, pos, n) == ids[..|ids| - 1] + Asks(v, t, WindowLo(pos, last), WindowHi(n, last))
  }

  /** The same after the counter of `last` is known: one side of its window remains. */
  ghost predicate OnTrackAt(v: nat -> nat, wanted: Option<nat>, pos: nat, n: nat, f: seq<VersionedId>, ids: seq<nat>,
                            t: nat, last: nat, ctr: nat)
    requires pos < n
  {
    Agrees(v, f) ==>
      && t == Target(v, wanted, n)
      && AskedIds(v, wanted, pos, n) ==
         ids + if ctr < t then Asks(v, t, last + 1, WindowHi(n, last)) else Asks(v, t, WindowLo(pos, last), last)
  }

  /** All that v asks for has been asked. */
  ghost predicate OnTrackToEnd(v: nat -> nat, wanted: Option<nat>, pos: nat, n: nat, f: seq<VersionedId>, ids: seq<nat>,
                               t: nat)
    requires pos < n
  {
    Agrees(v, f) ==> t == Target(v, wanted, n) && AskedIds(v, wanted, pos, n) == ids
  }

  lemma OnTrackStarts(v: nat -> nat, t: nat, pos: nat, n: nat, r: nat)
    requires pos < n && Covers(r, pos, n)
    ensures OnTrack(v, Some(t), pos, n, [], [r], t)
  {
    assert WindowLo(pos, r) == pos && WindowHi(n, r) == n;
    assert [r][..0] == [];
  }

  lemma NarrowedStarts(t: nat, pos: nat, n: nat, r: nat)
    requires pos < n && Covers(r, pos, n) && Level(r) <= Log2(n)
    ensures pos <= r < n && Distinct([r]) && Narrowed([], [r], t, pos, n, Log2(n) + 1)
  {
    hide Lo, Hi, Level, Log2;
  }

  lemma FrontierIds(pos: nat, n: nat)
    requires pos < n
    ensures var fr := Frontier(pos, n); fr != [] && Distinct(fr) && forall i :: 0 <= i < |fr| ==> pos <= fr[i] < n
  {
    FrontierIncreasing(pos, n - 1);
    hide Lo, Hi, FrontierTo;
    var fr := Frontier(pos, n);
    assert forall i :: 0 <= i < |fr| ==> fr[i] in fr;
  }

  lemma OnTrackFetched(v: nat -> nat, wanted: Option<nat>, pos: nat, n: nat, f: seq<VersionedId>, ids: seq<nat>, t: nat,
                       w: VersionedId)
    requires pos < n && ids != [] && OnTrack(v, wanted, pos, n, f, ids, t)
    ensures OnTrack(v, wanted, pos, n, f + [w], ids, t)
  {
    if Agrees(v, f + [w]) {
      forall i | 0 <= i < |f| ensures f[i].version == v(f[i].id) {
        assert (f + [w])[i] == f[i];
      }
    }
  }

  lemma OnTrackLeads(v: nat -> nat, wanted: Option<nat>, pos: nat, n: nat, f: seq<VersionedId>, ids: seq<nat>, t: nat)
    requires pos < n && ids != [] && pos <= ids[|ids| - 1] < n && Agrees(v, f) && OnTrack(v, wanted, pos, n, f, ids, t)
    ensures ids <= AskedIds(v, wanted, pos, n)
  {
    hide AskedIds, Asks, WindowLo, WindowHi;
    var last := ids[|ids| - 1];
    AsksAt(v, t, pos, n, last);
    assert ids == ids[..|ids| - 1] + [last];
  }

  lemma OnTrackBranches(v: nat -> nat, wanted: Option<nat>, pos: nat, n: nat, f: seq<VersionedId>, ids: seq<nat>,
                        t: nat, ctr: nat)
    requires pos < n && ids != [] && OnTrack(v, wanted, pos, n, f, ids, t)
    requires var last := ids[|ids| - 1]; pos <= last < n && VersionedId(last, ctr) in f
    ensures OnTrackAt(v, wanted, pos, n, f, ids, t, ids[|ids| - 1], ctr)
  {
    hide AskedIds, Asks, WindowLo, WindowHi;
    if Agrees(v, f) {
      var last := ids[|ids| - 1];
      AsksAt(v, t, pos, n, last);
      assert v(last) == ctr;
      assert ids == ids[..|ids| - 1] + [last];
    }
  }

  /** A search of the part of [pos, n) below a position starts there. */
  lemma AsksAt(v: nat -> nat, t: nat, pos: nat, n: nat, last: nat)
    requires pos <= last < n
    ensures Asks(v, t, WindowLo(pos, last), WindowHi(n, last)) ==
      [last] + if v(last) < t then Asks(v, t, last + 1, WindowHi(n, last)) else Asks(v, t, WindowLo(pos, last), last)
  {
    hide Lo, Hi;
    LeafOrNot(last);
    var a, b := WindowLo(pos, last), WindowHi(n, last);
    CoversUnique(CoverOf(a, b), last, a, b);
  }

  lemma {:induction false} FirstWithIs(v: nat -> nat, t: nat, s: seq<nat>, x: nat)
    requires Increasing(s) && x in s && v(x) == t && forall i :: 0 <= i < |s| && s[i] < x ==> v(s[i]) != t
    ensures (exists i :: 0 <= i < |s| && v(s[i]) == t) && FirstWith(v, t, s) == x
  {
    var i :| 0 <= i < |s| && s[i] == x;
    if i > 0 {
      assert s[0] < s[i];
      assert s[1..][i - 1] == x;
      FirstWithIs(v, t, s[1..], x);
    }
  }

  lemma SeenIn(f: seq<VersionedId>, id: nat, ctr: nat, t: nat)
    requires VersionedId(id, ctr) in f
    ensures if ctr < t then SeenBelow(f, id, t) else SeenAtLeast(f, id, t)
  {
  }

  /** When the search stops at `last`, the boundary is on one of its sides. */
  lemma StopsPinned(f: seq<VersionedId>, t: nat, pos: nat, n: nat, last: nat, ctr: nat)
    requires pos <= last < n && VersionedId(last, ctr) in f && Window(f, t, pos, n, last)
    requires IsLeaf(last) || (if ctr < t then last == n - 1 else last == pos)
    ensures exists b: nat :: pos <= b <= n && Pinned(f, t, pos, n, b, b)
  {
    SeenIn(f, last, ctr, t);
    var b := if ctr < t then last + 1 else last;
    assert Pinned(f, t, pos, n, b, b);
  }

  lemma Extended(f: seq<VersionedId>, ids: seq<nat>, t: nat, pos: nat, n: nat, limit: nat, last: nat, ctr: nat,
                 next: nat)
    requires |f| == |ids| && pos <= last < n && Branching(f, ids, t, pos, n, limit, last, ctr)
    requires Window(f, t, pos, n, next) && Level(next) < Level(last)
    requires if ctr < t
             then last + 1 < n && WindowLo(pos, next) == last + 1 && WindowHi(n, next) == WindowHi(n, last)
             else WindowLo(pos, next) == WindowLo(pos, last) && WindowHi(n, next) == last
    requires WindowLo(pos, next) <= next < WindowHi(n, next)
    ensures Narrowed(f, ids + [next], t, pos, n, limit) && next !in ids
  {
    hide Lo, Hi, Level, Window, WindowLo, WindowHi;
    var ids' := ids + [next];
    assert forall i :: 0 <= i < |ids| ==> ids'[i] == ids[i];
    assert forall i :: 0 <= i < |ids| ==> !(WindowLo(pos, next) <= ids[i] < WindowHi(n, next));
  }

  lemma FrontierBranches(f: seq<VersionedId>, s: seq<VersionedId>, ids: seq<nat>, pos: nat, n: nat, k: nat)
    requires pos < n && ids == Frontier(pos, n) && |f| == |ids| <= Log2(n) + 1 && Fetched(f, ids)
    requires multiset(s) == multiset(f) && OrderedById(s) && Monotonic(s) && k < |s|
    requires var t := s[|s| - 1].version; s[k].version == t && forall i :: 0 <= i < k ==> s[i].version != t
    ensures var t := s[|s| - 1].version;
      && pos <= s[k].id < n
      && Branching(f, ids, t, pos, n, 2 * Log2(n) + 1, s[k].id, s[k].version)
      && VersionedId(n - 1, t) in f
  {
    FrontierWindow(f, s, pos, n, k);
    FrontierIncreasing(pos, n - 1);
    hide Lo, Hi, FrontierTo, Frontier, Log2, Level, Monotonic, Window;
    var x := s[k].id;
    assert s[k] in multiset(f);
    assert x in ids;
    LevelBelow(x, n);
    assert forall i :: 0 <= i < |ids| ==> ids[i] in ids;
    FrontierEnds(f, s, ids, pos, n);
  }

  lemma FrontierOnTrack(v: nat -> nat, f: seq<VersionedId>, s: seq<VersionedId>, ids: seq<nat>, pos: nat, n: nat,
                        k: nat)
    requires pos < n && ids == Frontier(pos, n) && |f| == |ids| && Fetched(f, ids)
    requires multiset(s) == multiset(f) && OrderedById(s) && k < |s|
    requires var t := s[|s| - 1].version; s[k].version == t && forall i :: 0 <= i < k ==> s[i].version != t
    ensures OnTrackAt(v, None, pos, n, f, ids, s[|s| - 1].version, s[k].id, s[k].version)
  {
    hide Lo, Hi, FrontierTo, Frontier, Asks, WindowLo, WindowHi;
    var t, x := s[|s| - 1].version, s[k].id;
    if Agrees(v, f) {
      FrontierEnds(f, s, ids, pos, n);
      FrontierIncreasing(pos, n - 1);
      assert s[k] in multiset(f);
      forall i | 0 <= i < |ids| && ids[i] < x ensures v(ids[i]) != t {
        assert f[i] in multiset(s);
      }
      FrontierUnfold(pos, n);
      FirstWithIs(v, t, ids, x);
    }
  }

  lemma FrontierUnfold(pos: nat, n: nat)
    requires pos < n
    ensures Frontier(pos, n) == FrontierTo(pos, n - 1)
  {
  }

  lemma FrontierEnds(f: seq<VersionedId>, s: seq<VersionedId>, ids: seq<nat>, pos: nat, n: nat)
    requires pos < n && ids == Frontier(pos, n) && |f| == |ids| && Fetched(f, ids)
    requires multiset(s) == multiset(f) && OrderedById(s) && s != []
    ensures VersionedId(n - 1, s[|s| - 1].version) in f
  {
    FrontierIncreasing(pos, n - 1);
    hide FrontierTo;
    assert f[|f| - 1] in multiset(s);
    assert s[|s| - 1] in multiset(f);
    var i :| 0 <= i < |f| && f[i] == s[|s| - 1];
    assert ids[i] in ids;
  }

  lemma LastBranches(f: seq<VersionedId>, s: seq<VersionedId>, ids: seq<nat>, t: nat, pos: nat, n: nat, limit: nat,
                     k: nat)
    requires ids != [] && Narrowed(f, ids, t, pos, n, limit) && |f| == |ids| && Fetched(f, ids)
    requires multiset(s) == multiset(f) && k < |s| && s[k].id == ids[|ids| - 1] && pos <= s[k].id < n
    ensures Branching(f, ids, t, pos, n, limit, s[k].id, s[k].version)
  {
    hide Level, Window;
    assert s[k] in multiset(f);
  }

  /** In a finished search, the first fetched counter at or above t sits exactly at the boundary. */
  lemma BoundaryAt(f: seq<VersionedId>, s: seq<VersionedId>, ids: seq<nat>, t: nat, pos: nat, n: nat, b: nat, k: nat)
    requires |f| == |ids| && Fetched(f, ids) && Distinct(ids) && (forall i :: 0 <= i < |ids| ==> pos <= ids[i] < n)
    requires multiset(s) == multiset(f) && OrderedById(s) && Monotonic(s)
    requires pos <= b <= n && Pinned(f, t, pos, n, b, b)
    requires k <= |s| && (forall i :: 0 <= i < k ==> s[i].version < t) && (k < |s| ==> s[k].version >= t)
    ensures if b == n then k == |s| else k < |s| && s[k].id == b
  {
    if b < n {
      var i :| 0 <= i < |f| && f[i].id == b && f[i].version >= t;
      assert f[i] in multiset(s);
    }
    if k < |s| && s[k].id < b {
      assert s[k] in multiset(f);
      var i :| 0 <= i < |f| && f[i] == s[k];
      assert b > pos;
      var j :| 0 <= j < |f| && f[j].id == b - 1 && f[j].version < t;
      assert f[j] in multiset(s);
      var j' :| 0 <= j' < |s| && s[j'] == f[j];
      if j' >= k {
        MonotonicFar(s, k, j');
      }
    }
    if k < |s| {
      assert s[k] in multiset(f);
    }
  }

  lemma SettledNone(f: seq<VersionedId>, t: nat, pos: nat, n: nat, b: nat)
    requires pos <= b <= n && Pinned(f, t, pos, n, b, b) && (b == n || SeenAtLeast(f, b, t + 1))
    ensures Settles(f, t, pos, n, None)
  {
    assert SettlesAt(f, t, n, b, None);
  }

  lemma SettledSome(f: seq<VersionedId>, t: nat, pos: nat, n: nat, b: nat, i: nat)
    requires pos <= b < n && Pinned(f, t, pos, n, b, b) && i < |f| && f[i] == VersionedId(b, t)
    ensures Settles(f, t, pos, n, Some((i, b)))
  {
    assert SettlesAt(f, t, n, b, Some((i, b)));
  }

  /** The first counter at or above t decides the answer. */
  lemma SettledAt(f: seq<VersionedId>, s: seq<VersionedId>, ids: seq<nat>, t: nat, pos: nat, n: nat, b: nat, k: nat)
    requires |f| == |ids| && Fetched(f, ids) && Distinct(ids) && (forall i :: 0 <= i < |ids| ==> pos <= ids[i] < n)
    requires multiset(s) == multiset(f) && OrderedById(s) && Monotonic(s)
    requires pos <= b <= n && Pinned(f, t, pos, n, b, b)
    requires k <= |s| && (forall i :: 0 <= i < k ==> s[i].version < t) && (k < |s| ==> s[k].version >= t)
    ensures k == |s| || s[k].version != t ==> Settles(f, t, pos, n, None)
    ensures k < |s| && s[k].version == t ==> s[k].id in ids
    ensures k < |s| && s[k].version == t ==>
      forall i: nat :: i < |ids| && ids[i] == s[k].id ==> Settles(f, t, pos, n, Some((i, s[k].id)))
  {
    hide Pinned, Monotonic, OrderedById, Settles;
    BoundaryAt(f, s, ids, t, pos, n, b, k);
    if k < |s| {
      assert s[k] in multiset(f);
      var j :| 0 <= j < |f| && f[j] == s[k];
      if s[k].version == t {
        assert ids[j] == b;
        SettledSome(f, t, pos, n, b, j);
      } else {
        SettledNone(f, t, pos, n, b);
      }
    } else {
      SettledNone(f, t, pos, n, b);
    }
  }

  /** The id looked up after `last`, to its left or right depending on its counter. */
  method NextNode(ghost v: nat -> nat, ghost wanted: Option<nat>, ghost f: seq<VersionedId>, ghost ids: seq<nat>,
                  t: nat, pos: nat, n: nat,
                  ghost limit: nat, last: nat, ctr: nat)
    returns (next: Option<nat>)
    requires |f| == |ids| && pos <= last < n && Branching(f, ids, t, pos, n, limit, last, ctr)
    requires OnTrackAt(v, wanted, pos, n, f, ids, t, last, ctr)
    ensures next.None? ==> exists b: nat :: pos <= b <= n && Pinned(f, t, pos, n, b, b)
    ensures next.None? ==> OnTrackToEnd(v, wanted, pos, n, f, ids, t)
    ensures next.Some? ==>
      pos <= next.value < n && next.value !in ids && Narrowed(f, ids + [next.value], t, pos, n, limit)
    ensures next.Some? ==> OnTrack(v, wanted, pos, n, f, ids + [next.value], t)
    ensures next.Some? ==> |ids| < limit
  {
    hide Lo, Hi, Level, WindowLo, WindowHi, Pinned, Narrowed, Window, OnTrackAt, OnTrack, OnTrackToEnd;
    WindowDef(last, pos, n);
    LeafOrNot(last);
    if IsLeaf(last) || (if ctr < t then last == n - 1 else last == pos) {
      StopsPinned(f, t, pos, n, last, ctr);
      LeafLevelIs(last);
      TrackEnds(v, wanted, pos, n, f, ids, t, last, ctr);
      return None;
    }
    SeenIn(f, last, ctr, t);
    var x;
    if ctr < t {
      x := Right(last, pos, n);
      GoRight(f, t, pos, n, last, x);
    } else {
      x := Left(last, pos, n);
      GoLeft(f, t, pos, n, last, x);
    }
    Extended(f, ids, t, pos, n, limit, last, ctr, x);
    TrackExtends(v, wanted, pos, n, f, ids, t, last, ctr, x);
    return Some(x);
  }

  lemma LeafLevelIs(x: nat)
    ensures IsLeaf(x) <==> Level(x) == 0
  {
  }

  lemma TrackEnds(v: nat -> nat, wanted: Option<nat>, pos: nat, n: nat, f: seq<VersionedId>, ids: seq<nat>, t: nat,
                  last: nat, ctr: nat)
    requires pos < n && OnTrackAt(v, wanted, pos, n, f, ids, t, last, ctr)
    requires if ctr < t then WindowHi(n, last) <= last + 1 else last <= WindowLo(pos, last)
    ensures OnTrackToEnd(v, wanted, pos, n, f, ids, t)
  {
    hide AskedIds, WindowLo, WindowHi;
  }

  lemma TrackExtends(v: nat -> nat, wanted: Option<nat>, pos: nat, n: nat, f: seq<VersionedId>, ids: seq<nat>, t: nat,
                     last: nat, ctr: nat, next: nat)
    requires pos < n && OnTrackAt(v, wanted, pos, n, f, ids, t, last, ctr)
    requires if ctr < t
             then WindowLo(pos, next) == last + 1 && WindowHi(n, next) == WindowHi(n, last)
             else WindowLo(pos, next) == WindowLo(pos, last) && WindowHi(n, next) == last
    ensures OnTrack(v, wanted, pos, n, f, ids + [next], t)
  {
    hide AskedIds, WindowLo, WindowHi, Asks;
    assert (ids + [next])[..|ids|] == ids;
  }

  lemma WindowDef(x: nat, pos: nat, n: nat)
    ensures WindowLo(pos, x) == Max(pos, Lo(x)) && WindowHi(n, x) == Min(n, Hi(x) + 1)
  {
  }

  lemma Appended(ids: seq<nat>, x: nat, pos: nat, n: nat)
    requires Distinct(ids) && x !in ids && pos <= x < n && forall i :: 0 <= i < |ids| ==> pos <= ids[i] < n
    ensures Distinct(ids + [x]) && forall i :: 0 <= i < |ids + [x]| ==> pos <= (ids + [x])[i] < n
  {
  }

  /** Fetched counters out of order refute a nondecreasing counter function. */
  lemma NotNondecreasing(v: nat -> nat, f: seq<VersionedId>, s: seq<VersionedId>, pos: nat, n: nat)
    requires Agrees(v, f) && multiset(s) == multiset(f) && OrderedById(s) && !Monotonic(s)
    requires forall i :: 0 <= i < |f| ==> pos <= f[i].id < n
    ensures !Nondecreasing(v, pos, n)
  {
    var i :| 0 <= i < |s| - 1 && s[i].version > s[i + 1].version;
    assert s[i] in multiset(f) && s[i + 1] in multiset(f);
    assert v(s[i].id) > v(s[i + 1].id);
  }

  lemma Concluded(v: nat -> nat, f: seq<VersionedId>, t: nat, pos: nat, n: nat, r: Option<(nat, nat)>)
    requires Agrees(v, f) && Settles(f, t, pos, n, r) && pos < n
    requires forall i :: 0 <= i < |f| ==> pos <= f[i].id < n
    ensures Nondecreasing(v, pos, n) ==>
      match r
      case Some((i, id)) => IsLeast(v, pos, n, t, id)
      case None => forall i: nat :: pos <= i < n ==> v(i) != t
    ensures Nondecreasing(v, pos, n) && VersionedId(n - 1, t) in f ==> t == v(n - 1) && r.Some?
  {
    if Nondecreasing(v, pos, n) {
      SettledIsLeftmost(v, f, t, pos, n, r);
    }
  }

  method FirstWithVersion(s: seq<VersionedId>, t: nat) returns (k: nat)
    requires s != [] && s[|s| - 1].version == t
    ensures k < |s| && s[k].version == t && forall i :: 0 <= i < k ==> s[i].version != t
  {
    k := 0;
    while s[k].version != t
      invariant k < |s| && forall i :: 0 <= i < k ==> s[i].version != t
      decreases |s| - k
    {
      k := k + 1;
    }
  }

  method FirstWithId(s: seq<VersionedId>, id: nat) returns (k: nat)
    requires exists i :: 0 <= i < |s| && s[i].id == id
    ensures k < |s| && s[k].id == id
  {
    k := 0;
    while s[k].id != id
      invariant k < |s| && forall i :: 0 <= i < k ==> s[i].id != id
      decreases |s| - k
    {
      k := k + 1;
    }
  }

  method IndexOf(ids: seq<nat>, id: nat) returns (k: nat)
    requires id in ids
    ensures k < |ids| && ids[k] == id && id !in ids[..k]
  {
    k := 0;
    while ids[k] != id
      invariant k < |ids| && id !in ids[..k]
      decreases |ids| - k
    {
      k := k + 1;
    }
  }

  class ProofGuide {
    const pos: nat
    const n: nat
    var version: nat
    var ids: seq<nat>
    var sorted: seq<VersionedId>
    var isFrontier: bool
    /** The same pairs as `sorted`, in the order they were inserted. */
    ghost var fetched: seq<VersionedId>
    /** What is looked for (`None`: the most recent version), and any counters to compare with. */
    ghost const wanted: Option<nat>
    ghost const v: nat -> nat

    ghost function LookupLimit(): nat {
      if wanted.None? then 2 * Log2(n) + 1 else Log2(n) + 1
    }

    ghost predicate Bookkeeping()
      reads this
    {
      && pos < n
      && |sorted| == |fetched| && multiset(sorted) == multiset(fetched) && Fetched(fetched, ids)
      && Distinct(ids) && ids != [] && (forall i :: 0 <= i < |ids| ==> pos <= ids[i] < n)
      && |ids| <= LookupLimit()
      && (wanted.Some? ==> version == wanted.value && !isFrontier)
      && (wanted.None? && !isFrontier ==> VersionedId(n - 1, version) in fetched)
    }

    ghost predicate Valid()
      reads this
    {
      && Bookkeeping()
      && if isFrontier then ids == Frontier(pos, n) && |ids| <= Log2(n) + 1
         else
           && Narrowed(fetched, ids, version, pos, n, LookupLimit())
           && OnTrack(v, wanted, pos, n, fetched, ids, version)
    }

    /** The state in which `poll` reports the end of the search. */
    ghost predicate Finished()
      reads this
    {
      && Bookkeeping() && !isFrontier && |fetched| == |ids|
      && OrderedById(sorted) && Monotonic(sorted)
      && OnTrackToEnd(v, wanted, pos, n, fetched, ids, version)
      && exists b: nat :: pos <= b <= n && Pinned(fetched, version, pos, n, b, b)
    }

    constructor (wanted: Option<nat>, pos: nat, n: nat, version: nat, ids: seq<nat>, isFrontier: bool,
                 ghost v: nat -> nat)
      ensures this.pos == pos && this.n == n && this.version == version && this.ids == ids
      ensures this.isFrontier == isFrontier
      ensures this.wanted == wanted && this.v == v && sorted == fetched == []
    {
      this.pos, this.n, this.version, this.ids, this.isFrontier := pos, n, version, ids, isFrontier;
      this.sorted, this.fetched := [], [];
      this.wanted, this.v := wanted, v;
    }

    /** Starts a search; the source panics exactly on empty ranges (`None`). */
    static method New(wanted: Option<nat>, pos: nat, n: nat, ghost v: nat -> nat) returns (guide: Option<ProofGuide>)
      ensures guide.Some? <==> pos < n
      ensures guide.Some? ==> fresh(guide.value) && guide.value.Valid() && guide.value.fetched == []
      ensures guide.Some? ==>
        var g := guide.value; g.pos == pos && g.n == n && g.wanted == wanted && g.v == v
    {
      match wanted {
        case Some(version) => guide := ForVersion(version, pos, n, v);
        case None => guide := ForMostRecent(pos, n, v);
      }
    }

    static method ForVersion(version: nat, pos: nat, n: nat, ghost v: nat -> nat) returns (guide: Option<ProofGuide>)
      ensures guide.Some? <==> pos < n
      ensures guide.Some? ==> fresh(guide.value) && guide.value.Valid() && guide.value.fetched == []
      ensures guide.Some? ==>
        var g := guide.value; g.pos == pos && g.n == n && g.wanted == Some(version) && g.v == v
    {
      hide Lo, Hi, Level, Window, WindowLo, WindowHi, Pinned, FrontierTo, Log2, Narrowed, OnTrack, Distinct, Covers;
      var r := Root(pos, n);
      if r.None? {
        return None;
      }
      OnTrackStarts(v, version, pos, n, r.value);
      NarrowedStarts(version, pos, n, r.value);
      var g := new ProofGuide(Some(version), pos, n, version, [r.value], false, v);
      return Some(g);
    }

    static method ForMostRecent(pos: nat, n: nat, ghost v: nat -> nat) returns (guide: Option<ProofGuide>)
      ensures guide.Some? <==> pos < n
      ensures guide.Some? ==> fresh(guide.value) && guide.value.Valid() && guide.value.fetched == []
      ensures guide.Some? ==>
        var g := guide.value; g.pos == pos && g.n == n && g.wanted == None && g.v == v
    {
      hide Lo, Hi, Level, Window, WindowLo, WindowHi, Pinned, FrontierTo, Log2, Narrowed, OnTrack, Distinct;
      var fr := FrontierOf(pos, n);
      if fr.None? {
        return None;
      }
      FrontierIds(pos, n);
      var g := new ProofGuide(None, pos, n, 0, fr.value, true, v);
      return Some(g);
    }

    /** While the counters are those of v, only ids that v asks for are asked. */
    lemma IdsLead()
      requires Valid() && Agrees(v, fetched)
      ensures ids <= AskedIds(v, wanted, pos, n)
    {
      hide Lo, Hi, Level, Pinned, FrontierTo, Log2, WindowLo, WindowHi, Narrowed, Distinct;
      if !isFrontier {
        OnTrackLeads(v, wanted, pos, n, fetched, ids, version);
      }
    }

    method NextId() returns (id: nat)
      requires Valid() && |fetched| < |ids|
      ensures id == ids[|fetched|] && pos <= id < n
    {
      id := ids[|sorted|];
    }

    method Insert(id: nat, ctr: nat)
      requires Valid() && |fetched| < |ids| && id == ids[|fetched|]
      modifies this
      ensures Valid() && fetched == old(fetched) + [VersionedId(id, ctr)]
      ensures ids == old(ids) && version == old(version) && isFrontier == old(isFrontier)
    {
      hide Lo, Hi, Level, WindowLo, WindowHi, FrontierTo, Log2, Pinned, OnTrack;
      var w := VersionedId(id, ctr);
      if !isFrontier {
        var last := ids[|ids| - 1];
        PinnedExtends(fetched, w, version, pos, n, WindowLo(pos, last), WindowHi(n, last));
        OnTrackFetched(v, wanted, pos, n, fetched, ids, version, w);
      }
      sorted := sorted + [w];
      fetched := fetched + [w];
    }

    /** Sorts what was fetched; when its counters are monotonic, finds the id to go on from. */
    method PickLast() returns (last: Option<(nat, nat)>)
      requires Valid() && |fetched| == |ids|
      modifies `version, `sorted, `isFrontier
      ensures Bookkeeping() && OrderedById(sorted)
      ensures last.Some? <==> Monotonic(sorted)
      ensures last.Some? ==> var (x, ctr) := last.value;
        && !isFrontier && pos <= x < n && Branching(fetched, ids, version, pos, n, LookupLimit(), x, ctr)
        && OnTrackAt(v, wanted, pos, n, fetched, ids, version, x, ctr)
    {
      hide Lo, Hi, Level, Window, WindowLo, WindowHi, Frontier, Log2, Narrowed, Branching, SortById, Distinct, OnTrack,
           OnTrackAt, OnTrackToEnd;
      SortByIdSorts(sorted);
      sorted := SortById(sorted);
      if !Monotonic(sorted) {
        return None;
      }
      if isFrontier {
        version := sorted[|sorted| - 1].version;
        isFrontier := false;
        var k := FirstWithVersion(sorted, version);
        FrontierBranches(fetched, sorted, ids, pos, n, k);
        FrontierOnTrack(v, fetched, sorted, ids, pos, n, k);
        return Some((sorted[k].id, sorted[k].version));
      } else {
        var id := ids[|ids| - 1];
        assert fetched[|ids| - 1] in multiset(sorted);
        var k := FirstWithId(sorted, id);
        LastBranches(fetched, sorted, ids, version, pos, n, LookupLimit(), k);
        assert sorted[k] in multiset(fetched);
        OnTrackBranches(v, wanted, pos, n, fetched, ids, version, sorted[k].version);
        return Some((id, sorted[k].version));
      }
    }

    /** Reports whether the search is finished, and otherwise which id comes next. */
    method Poll() returns (r: Result<bool, InvalidState>)
      requires Valid()
      modifies this
      ensures Bookkeeping() && fetched == old(fetched) && old(ids) <= ids
      ensures r.Err? ==> OrderedById(sorted) && !Monotonic(sorted)
      ensures r == Ok(false) ==> Valid() && |fetched| < |ids|
      ensures r == Ok(true) ==> Finished()
    {
      hide Lo, Hi, Level, Window, WindowLo, WindowHi, Pinned, Frontier, Log2, Narrowed, Branching, OrderedById,
           Monotonic, Distinct, OnTrack, OnTrackAt, OnTrackToEnd;
      if |ids| > |sorted| {
        return Ok(false);
      }
      var picked := PickLast();
      if picked.None? {
        return Err(InvalidState);
      }
      var (last, ctr) := picked.value;
      var next := NextNode(v, wanted, fetched, ids, version, pos, n, LookupLimit(), last, ctr);
      if next.None? {
        return Ok(true);
      }
      Appended(ids, next.value, pos, n);
      ids := ids + [next.value];
      return Ok(false);
    }

    /** The answer of a finished search: the index of the lookup that holds it, and its id. */
    method Result() returns (r: Option<(nat, nat)>)
      requires Finished()
      ensures Settles(fetched, version, pos, n, r)
      ensures r.Some? ==> r.value.0 < |ids| && ids[r.value.0] == r.value.1
    {
      hide Lo, Hi, Level, Window, Pinned, Monotonic, OrderedById, Distinct, Settles, OnTrackToEnd, Log2;
      ghost var b: nat :| pos <= b <= n && Pinned(fetched, version, pos, n, b, b);
      var k := 0;
      while k < |sorted| && sorted[k].version < version
        invariant 0 <= k <= |sorted|
        invariant forall i :: 0 <= i < k ==> sorted[i].version < version
      {
        k := k + 1;
      }
      SettledAt(fetched, sorted, ids, version, pos, n, b, k);
      if k == |sorted| || sorted[k].version != version {
        return None;
      }
      var i := IndexOf(ids, sorted[k].id);
      return Some((i, sorted[k].id));
    }

    /** Runs the search, looking counters up with `counter`. */
    method Consume(counter: nat -> nat) returns (r: Result<Option<(nat, nat)>, InvalidState>)
      requires Valid() && fetched == [] && v == counter
      modifies this
      ensures Agrees(counter, fetched) && |fetched| <= if wanted.Some? then Log2(n) + 1 else 2 * Log2(n) + 1
      ensures r.Ok? ==> ids == AskedIds(counter, wanted, pos, n) && version == Target(counter, wanted, n)
      ensures r.Ok? ==> Settles(fetched, version, pos, n, r.value)
      ensures Nondecreasing(counter, pos, n) ==> r.Ok? && (wanted.None? ==> r.value.Some?)
      ensures Nondecreasing(counter, pos, n) ==>
        match r.value
        case Some((i, id)) => i < |ids| && ids[i] == id && IsLeast(counter, pos, n, version, id)
        case None => forall i: nat :: pos <= i < n ==> counter(i) != version
    {
      hide Lo, Hi, Level, Window, WindowLo, WindowHi, Pinned, Frontier, Log2, Narrowed, Distinct, Settles, IsLeast,
           Nondecreasing, OrderedById, Monotonic, OnTrack, AskedIds;
      while true
        invariant Valid() && Agrees(counter, fetched)
        decreases LookupLimit() - |fetched|
      {
        var done := Poll();
        if done.Err? {
          NotNondecreasing(counter, fetched, sorted, pos, n);
          return Err(InvalidState);
        }
        if done.value {
          var answer := Result();
          Concluded(counter, fetched, version, pos, n, answer);
          return Ok(answer);
        }
        var id := NextId();
        Insert(id, counter(id));
      }
    }
  }
}
