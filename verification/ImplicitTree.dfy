/** The Implicit Binary Search Tree over the log positions [start, n) (implicit.rs), and the
    positions a client revisits when it monitors a key. */
module ImplicitTree {
  import opened Wrappers
  import opened Bits
  import opened LeftBalanced
  import opened Sequences

  function Max(a: nat, b: nat): nat { if a < b then b else a }

  function Min(a: nat, b: nat): nat { if a < b then a else b }

  /** r is the root of the search tree over [a, b): it lies there and its subtree spans all of it. */
  ghost predicate Covers(r: nat, a: nat, b: nat) {
    a <= r < b && Lo(r) <= a && b <= Hi(r) + 1
  }

  lemma CoversUnique(r: nat, s: nat, a: nat, b: nat)
    requires Covers(r, a, b) && Covers(s, a, b)
    ensures r == s
  {
    MutualSubtree(r, s);
  }

  /** Walks down from x0 to the first node inside [start, n). The source panics at a leaf outside the
      range (`None` here), which happens exactly when x0's subtree holds no position of the range. */
  method MoveWithin(x0: nat, start: nat, n: nat) returns (r: Option<nat>)
    ensures r.Some? <==> Max(start, Lo(x0)) < Min(n, Hi(x0) + 1)
    ensures r.Some? ==> InSubtree(r.value, x0) && Covers(r.value, Max(start, Lo(x0)), Min(n, Hi(x0) + 1))
  {
    hide Lo, Hi, Level, LeftStep, RightStep;
    var x: nat := x0;
    LeafOrNot(x);
    while !(start <= x < n)
      invariant InSubtree(x, x0)
      invariant Max(start, Lo(x)) == Max(start, Lo(x0))
      invariant Min(n, Hi(x) + 1) == Min(n, Hi(x0) + 1)
      decreases Level(x)
    {
      LeafOrNot(x);
      if IsLeaf(x) {
        return None;
      }
      ChildrenOf(x);
      Nested(x, x0);
      if x < start {
        x := RightStep(x);
      } else {
        x := LeftStep(x);
      }
    }
    LeafOrNot(x);
    return Some(x);
  }

  lemma TopSpans(n: nat)
    requires n > 0
    ensures var x := Shl(1, Log2(n)) - 1; x >= 0 && Level(x) == Log2(n) && Lo(x) == 0 && n <= Hi(x) + 1
  {
    hide *;
    var k := Log2(n);
    Log2Bounds(n);
    ShlPow2(1, k);
    TopId(k);
    LevelOfId(k, 0);
    IntervalWidth(Pow2(k) - 1);
  }

  lemma {:induction false} TopId(k: nat)
    ensures Id(k, 0) == Pow2(k) - 1
    ensures Pow2(k + 1) == 2 * Pow2(k)
  {
    if k > 0 {
      TopId(k - 1);
    }
  }

  lemma {:induction false} CoverBelow(x: nat, a: nat, b: nat) returns (r: nat)
    requires Max(a, Lo(x)) < Min(b, Hi(x) + 1)
    ensures Covers(r, Max(a, Lo(x)), Min(b, Hi(x) + 1))
    decreases Level(x)
  {
    hide Lo, Hi, LeftStep, RightStep;
    if a <= x < b {
      r := x;
    } else {
      LeafOrNot(x);
      ChildrenOf(x);
      r := CoverBelow(if x < a then RightStep(x) else LeftStep(x), a, b);
    }
  }

  lemma CoverExists(a: nat, b: nat)
    requires a < b
    ensures exists r: nat :: Covers(r, a, b)
  {
    hide Shl, Log2, Lo, Hi;
    TopSpans(b);
    var r := CoverBelow(Shl(1, Log2(b)) - 1, a, b);
  }

  /** The root of the search tree over [a, b); there is only one by `CoversUnique`. */
  ghost function CoverOf(a: nat, b: nat): (r: nat)
    requires a < b
    ensures Covers(r, a, b)
  {
    CoverExists(a, b);
    var r: nat :| Covers(r, a, b);
    r
  }

  /** The root of a search; the source panics exactly on empty ranges. */
  method Root(start: nat, n: nat) returns (r: Option<nat>)
    ensures r.Some? <==> start < n
    ensures r.Some? ==> start <= r.value < n && Covers(r.value, start, n) && r.value == CoverOf(start, n)
    ensures r.Some? ==> Level(r.value) <= Log2(n)
  {
    hide Lo, Hi, Level, Shl, Log2;
    LowestBit(Log2(n));
    var x := Shl(1, Log2(n)) - 1;
    r := MoveWithin(x, start, n);
    if n > 0 {
      TopSpans(n);
    }
    if r.Some? {
      Nested(r.value, x);
      CoversUnique(r.value, CoverOf(start, n), start, n);
    }
  }

  lemma LowestBit(k: nat)
    ensures Shl(1, k) >= 1
  {
    ShlPow2(1, k);
  }

  method Left(x: nat, start: nat, n: nat) returns (r: nat)
    requires !IsLeaf(x) && start < x < n
    ensures Covers(r, Max(start, Lo(x)), x)
    ensures Level(r) < Level(x) && Lo(x) <= Lo(r) && Hi(r) == x - 1
  {
    hide Lo, Hi, Level, LeftStep, RightStep;
    LeafOrNot(x);
    ChildrenOf(x);
    var m := MoveWithin(LeftStep(x), start, n);
    r := m.value;
    Nested(r, LeftStep(x));
  }

  method Right(x: nat, start: nat, n: nat) returns (r: nat)
    requires !IsLeaf(x) && start <= x && x + 1 < n
    ensures Covers(r, x + 1, Min(n, Hi(x) + 1))
    ensures Level(r) < Level(x) && Lo(r) == x + 1 && Hi(r) <= Hi(x)
  {
    hide Lo, Hi, Level, LeftStep, RightStep;
    LeafOrNot(x);
    ChildrenOf(x);
    var m := MoveWithin(RightStep(x), start, n);
    r := m.value;
    Nested(r, RightStep(x));
  }

  // Ancestors ----------------------------------------------------------------

  /** The parent is the position just right or just left of the subtree. */
  lemma ParentCases(x: nat)
    ensures var p := ParentStep(x);
      && InSubtree(x, p) && p != x
      && (p == Hi(x) + 1 || (p == Lo(x) - 1 && Hi(p) == Hi(x)))
  {
    hide *;
    ParentOf(x);
    ChildrenOf(ParentStep(x));
    assert Lo(x) <= x <= Hi(x);
    assert Lo(ParentStep(x)) <= x <= Hi(ParentStep(x));
    assert InSubtree(x, ParentStep(x)) by { InSubtreeDef(x, ParentStep(x)); }
  }

  lemma InSubtreeDef(y: nat, x: nat)
    ensures InSubtree(y, x) == (Lo(x) <= y <= Hi(x))
  {
  }

  lemma {:induction false} ParentInside(x: nat, r: nat)
    requires InSubtree(x, r) && x != r
    ensures InSubtree(ParentStep(x), r)
    decreases Level(r)
  {
    hide LeftStep, RightStep, ParentStep;
    Nested(x, r);
    ChildrenOf(r);
    var c := if x < r then LeftStep(r) else RightStep(r);
    if x != c {
      ParentInside(x, c);
    }
  }

  /** The nearest ancestor right of x is the position just after its subtree. */
  lemma {:induction false} RightAncestor(x: nat)
    ensures InSubtree(x, Hi(x) + 1)
  {
    if x % 2 == 1 {
      RightAncestor(x / 2);
      assert (Hi(x) + 1) / 2 == Hi(x / 2) + 1;
    } else {
      assert (x + 1) / 2 == x / 2;
    }
  }

  lemma {:induction false} LeftAncestor(x: nat)
    requires Lo(x) > 0
    ensures InSubtree(x, Lo(x) - 1)
  {
    if x % 2 == 1 {
      LeftAncestor(x / 2);
      assert (Lo(x) - 1) / 2 == Lo(x / 2) - 1;
    } else {
      assert (x - 1) / 2 == x / 2 - 1;
    }
  }

  lemma AncestorsOutside(x: nat, a: nat)
    requires InSubtree(x, a) && a != x
    ensures a > x ==> a >= Hi(x) + 1 && InSubtree(Hi(x) + 1, a)
    ensures a < x ==> a < Lo(x)
    ensures Lo(a) <= Lo(x) && Hi(x) <= Hi(a)
  {
    Nested(x, a);
    if InSubtree(a, x) {
      MutualSubtree(x, a);
    }
  }

  // Monitoring paths -----------------------------------------------------------

  /** The monitoring path: repeatedly the position just after the subtree, as long as it exists. */
  function MonitoringPath(x: nat, n: nat): seq<nat>
    decreases if x < n then n - x else 0
  {
    if Hi(x) + 1 < n then [Hi(x) + 1] + MonitoringPath(Hi(x) + 1, n) else []
  }

  /** It is the list of all ancestors of x, in the unbounded tree, strictly between x and n. */
  lemma {:induction false} MonitoringPathIsAncestors(x: nat, n: nat, a: nat)
    ensures a in MonitoringPath(x, n) <==> x < a < n && InSubtree(x, a)
    decreases if x < n then n - x else 0
  {
    var y := Hi(x) + 1;
    RightAncestor(x);
    if y < n {
      MonitoringPathIsAncestors(y, n, a);
      if x < a < n && InSubtree(x, a) {
        AncestorsOutside(x, a);
      }
      if y < a < n && InSubtree(y, a) {
        Nested(y, a);
      }
    } else if x < a < n && InSubtree(x, a) {
      AncestorsOutside(x, a);
    }
  }

  lemma {:induction false} MonitoringPathIncreasing(x: nat, n: nat)
    ensures Increasing(MonitoringPath(x, n))
    ensures forall a :: a in MonitoringPath(x, n) ==> x < a < n
    decreases if x < n then n - x else 0
  {
    hide Hi;
    var y := Hi(x) + 1;
    if y < n {
      MonitoringPathIncreasing(y, n);
      PrependIncreasing(y, MonitoringPath(y, n));
    }
  }

  /** Appending to the log only ever appends to a monitoring path. */
  lemma {:induction false} MonitoringPathAppendOnly(x: nat, n: nat, n': nat)
    requires n <= n'
    ensures MonitoringPath(x, n) <= MonitoringPath(x, n')
    decreases if x < n then n - x else 0
  {
    var y := Hi(x) + 1;
    if y < n {
      MonitoringPathAppendOnly(y, n, n');
    }
  }

  /** From any position of a monitoring path, the path goes on the same way. */
  lemma {:induction false} MonitoringPathSuffix(x: nat, n: nat, i: nat)
    requires i < |MonitoringPath(x, n)|
    ensures MonitoringPath(MonitoringPath(x, n)[i], n) == MonitoringPath(x, n)[i + 1..]
    decreases i
  {
    if i > 0 {
      MonitoringPathSuffix(Hi(x) + 1, n, i - 1);
    }
  }

  function Above(d: seq<nat>, x: nat): seq<nat> {
    if d == [] then [] else
      Above(d[..|d| - 1], x) + (if d[|d| - 1] > x then [d[|d| - 1]] else [])
  }

  /** Steps to the nearest ancestor below n. Where there is none the source never returns (`None` here):
      from an ancestor at or above n whose subtree starts at 0 it can only climb further, until the word
      ends. */
  method Parent(x: nat, n: nat) returns (p: Option<nat>)
    ensures p.None? <==> forall a: nat :: InSubtree(x, a) && a != x ==> a >= n
    ensures p.Some? ==> p.value < n && InSubtree(x, p.value) && p.value != x && Level(x) < Level(p.value)
    ensures p.Some? ==> forall a: nat :: a < n && InSubtree(x, a) && a != x ==> InSubtree(p.value, a)
  {
    hide Lo, Hi, Level, ParentStep, InSubtree;
    ghost var top := TopAbove(x);
    NextAncestor(x);
    Climbs(x);
    var q: nat := ParentStep(x);
    NextInside(x, top);
    while q >= n
      invariant InSubtree(x, q) && q != x && Level(x) < Level(q) && InSubtree(q, top)
      invariant forall a: nat :: a < n && InSubtree(x, a) && a != x ==> InSubtree(q, a)
      decreases Level(top) - Level(q)
    {
      if Lo(q) == 0 {
        OnlyAbove(q);
        return None;
      }
      NotTop(q, top);
      NextAncestor(q);
      Climbs(q);
      NextInside(q, top);
      Further(x, q);
      q := ParentStep(q);
      Below(q, top);
    }
    return Some(q);
  }

  /** An ancestor of x whose subtree starts at 0. */
  lemma TopAbove(x: nat) returns (top: nat)
    ensures InSubtree(x, top) && top != x && Lo(top) == 0
  {
    LowestBit(Log2(x + 1));
    TopSpans(x + 1);
    var t := Shl(1, Log2(x + 1)) - 1;
    hide Shl, Log2;
    ParentCases(t);
    top := ParentStep(t);
    Nested(t, top);
  }

  /** The next node up is below every other ancestor. */
  lemma NextAncestor(x: nat)
    ensures forall a: nat :: InSubtree(x, a) && a != x ==> InSubtree(ParentStep(x), a)
  {
    hide Lo, Hi, ParentStep, InSubtree;
    forall a: nat | InSubtree(x, a) && a != x ensures InSubtree(ParentStep(x), a) {
      ParentInside(x, a);
    }
  }

  lemma Climbs(x: nat)
    ensures InSubtree(x, ParentStep(x)) && ParentStep(x) != x && Level(x) < Level(ParentStep(x))
  {
    hide Lo, Hi, Level, ParentStep;
    ParentCases(x);
    Nested(x, ParentStep(x));
  }

  lemma NextInside(x: nat, top: nat)
    requires InSubtree(x, top) && x != top
    ensures InSubtree(ParentStep(x), top) && Level(ParentStep(x)) <= Level(top)
  {
    hide Lo, Hi, Level, ParentStep;
    ParentInside(x, top);
    Nested(ParentStep(x), top);
  }

  lemma OnlyAbove(q: nat)
    requires Lo(q) == 0
    ensures forall a: nat :: InSubtree(q, a) ==> a >= q
  {
    hide Level;
    forall a: nat | InSubtree(q, a) ensures a >= q {
      if a != q {
        AncestorsOutside(q, a);
      }
    }
  }

  lemma NotTop(q: nat, top: nat)
    requires InSubtree(q, top) && Lo(top) == 0 && Lo(q) > 0
    ensures q != top
  {
  }

  lemma Below(q: nat, top: nat)
    requires InSubtree(q, top)
    ensures Level(q) <= Level(top)
  {
    Nested(q, top);
  }

  /** Ancestors of ancestors are ancestors. */
  lemma Further(x: nat, q: nat)
    requires InSubtree(x, q) && q != x
    ensures InSubtree(x, ParentStep(q)) && ParentStep(q) != x && Level(x) < Level(ParentStep(q))
  {
    hide Level, ParentStep;
    Climbs(q);
    Nested(x, q);
    Nested(q, ParentStep(q));
  }

  /** All ancestors below n, from x up to the root of the search over [start, n). The walk ends exactly
      for positions below that root; otherwise the source never meets it and never returns (`None`). */
  method DirectPath(x0: nat, start: nat, n: nat) returns (d: Option<seq<nat>>)
    ensures d.Some? <==> start < n && InSubtree(x0, CoverOf(start, n))
    ensures d.Some? ==> forall a: nat :: a in d.value <==>
      a < n && a != x0 && InSubtree(x0, a) && InSubtree(a, CoverOf(start, n))
    ensures d.Some? ==> Above(d.value, x0) == MonitoringPath(x0, n)
  {
    hide Lo, Hi, Level, Log2, InSubtree, Above, MonitoringPath, Increasing, Covers;
    var root := Root(start, n);
    if root.None? {
      return None;
    }
    var r := root.value;
    var x: nat := x0;
    var path: seq<nat> := [];
    Itself(x0);
    NoneBetween(x0);
    AboveNothing(x0);
    while x != r
      invariant InSubtree(x0, x) && (path == [] ==> x == x0) && (path != [] ==> x in path)
      invariant forall a: nat :: a in path <==> a < n && a != x0 && InSubtree(x0, a) && InSubtree(a, x)
      invariant Increasing(Above(path, x0))
      invariant InSubtree(x0, r) ==> InSubtree(x, r)
      decreases Log2(n) - Level(x)
    {
      var p := Parent(x, n);
      if p.None? {
        NotBelow(x0, x, r, start, n);
        return None;
      }
      LevelBelow(p.value, n);
      PathStep(x0, x, p.value, n, path);
      AboveGrows(x0, path, p.value);
      x, path := p.value, path + [p.value];
    }
    AboveIs(x0, start, n, path);
    return Some(path);
  }

  lemma Itself(x: nat)
    ensures InSubtree(x, x)
  {
  }

  lemma NoneBetween(x: nat)
    ensures forall a: nat :: InSubtree(x, a) && InSubtree(a, x) ==> a == x
  {
    forall a: nat | InSubtree(x, a) && InSubtree(a, x) ensures a == x {
      MutualSubtree(x, a);
    }
  }

  lemma LevelBelow(x: nat, n: nat)
    requires x < n
    ensures Level(x) <= Log2(n)
  {
    IntervalWidth(x);
    Log2Bounds(n);
    if Level(x) > Log2(n) {
      Pow2Mono(Log2(n) + 1, Level(x));
    }
  }

  /** Where the walk finds no further ancestor below n, it has missed the root. */
  lemma NotBelow(x0: nat, x: nat, r: nat, start: nat, n: nat)
    requires start < n && r == CoverOf(start, n) && x != r && (InSubtree(x0, r) ==> InSubtree(x, r))
    requires forall a: nat :: InSubtree(x, a) && a != x ==> a >= n
    ensures !InSubtree(x0, r)
  {
    hide Lo, Hi;
  }

  /** One step of the walk adds the next ancestor below n, and skips none. */
  lemma PathStep(x0: nat, x: nat, p: nat, n: nat, path: seq<nat>)
    requires InSubtree(x0, x) && p < n && InSubtree(x, p) && p != x
    requires forall a: nat :: a < n && InSubtree(x, a) && a != x ==> InSubtree(p, a)
    requires forall a: nat :: a in path <==> a < n && a != x0 && InSubtree(x0, a) && InSubtree(a, x)
    ensures InSubtree(x0, p)
    ensures forall a: nat :: a in path + [p] <==> a < n && a != x0 && InSubtree(x0, a) && InSubtree(a, p)
    ensures forall r: nat :: r < n && InSubtree(x, r) && r != x ==> InSubtree(p, r)
    ensures forall a: nat :: a in path ==> InSubtree(a, p) && a != p
  {
    hide Level;
    Nested(x0, x);
    Nested(x, p);
    forall a: nat ensures a in path + [p] <==> a < n && a != x0 && InSubtree(x0, a) && InSubtree(a, p) {
      Ordered(x0, x, p, n, a);
    }
    forall a: nat | a in path ensures InSubtree(a, p) && a != p {
      Nested(a, x);
      if a == p {
        MutualSubtree(x, p);
      }
    }
  }

  lemma Ordered(x0: nat, x: nat, p: nat, n: nat, a: nat)
    requires InSubtree(x0, x) && p < n && InSubtree(x, p) && p != x && InSubtree(x0, p)
    requires forall a: nat :: a < n && InSubtree(x, a) && a != x ==> InSubtree(p, a)
    ensures p != x0
    ensures a < n && a != x0 && InSubtree(x0, a) ==> (InSubtree(a, p) <==> a == p || InSubtree(a, x))
  {
    Nested(x, p);
    if p == x0 {
      MutualSubtree(x, p);
    }
    if a < n && InSubtree(x0, a) {
      if InSubtree(a, x) {
        Nested(a, x);
      } else {
        Comparable(x0, a, x);
        if InSubtree(a, p) {
          MutualSubtree(a, p);
        }
      }
    }
  }

  /** Two ancestors of a position are one below the other. */
  lemma {:induction false} Comparable(x: nat, a: nat, b: nat)
    requires InSubtree(x, a) && InSubtree(x, b)
    ensures InSubtree(a, b) || InSubtree(b, a)
    decreases Level(a)
  {
    hide LeftStep, RightStep;
    if a != x {
      Nested(x, a);
      LeafOrNot(a);
      ChildrenOf(a);
      var c := if x < a then LeftStep(a) else RightStep(a);
      Comparable(x, c, b);
      if InSubtree(c, b) && c != b {
        ParentInside(c, b);
      } else if InSubtree(b, c) {
        Nested(c, a);
      }
    }
  }

  lemma AboveGrows(x0: nat, path: seq<nat>, p: nat)
    requires Increasing(Above(path, x0)) && InSubtree(x0, p)
    requires forall a: nat :: a in path ==> InSubtree(x0, a) && InSubtree(a, p) && a != p
    ensures Increasing(Above(path + [p], x0))
  {
    AboveOneMore(path, x0, p);
    hide Lo, Hi, Above;
    var s := Above(path, x0);
    AboveElements(path, x0);
    if p > x0 {
      forall i | 0 <= i < |s| ensures s[i] < p {
        assert s[i] in s;
        HigherAncestor(x0, s[i], p);
      }
    }
  }

  lemma AboveOneMore(d: seq<nat>, x: nat, p: nat)
    ensures Above(d + [p], x) == Above(d, x) + (if p > x then [p] else [])
  {
    assert (d + [p])[..|d|] == d;
  }

  /** Of two ancestors right of x, the one further up is further right. */
  lemma HigherAncestor(x: nat, a: nat, p: nat)
    requires x < a && x < p && InSubtree(x, a) && InSubtree(a, p) && a != p
    ensures a < p
  {
    AncestorsOutside(a, p);
  }

  lemma {:induction false} AboveElements(d: seq<nat>, x: nat)
    ensures forall a: nat :: a in Above(d, x) <==> a in d && a > x
  {
    if d != [] {
      AboveElements(d[..|d| - 1], x);
      assert d == d[..|d| - 1] + [d[|d| - 1]];
    }
  }

  lemma AboveIs(x0: nat, start: nat, n: nat, path: seq<nat>)
    requires start < n && InSubtree(x0, CoverOf(start, n)) && Increasing(Above(path, x0))
    requires forall a: nat :: a in path <==> a < n && a != x0 && InSubtree(x0, a) && InSubtree(a, CoverOf(start, n))
    ensures Above(path, x0) == MonitoringPath(x0, n)
  {
    hide Level, Above, MonitoringPath;
    var r := CoverOf(start, n);
    AboveElements(path, x0);
    MonitoringPathIncreasing(x0, n);
    forall a: nat ensures a in Above(path, x0) <==> a in MonitoringPath(x0, n) {
      MonitoringPathIsAncestors(x0, n, a);
      if x0 < a < n && InSubtree(x0, a) {
        Comparable(x0, a, r);
        if InSubtree(r, a) && r != a {
          AncestorsOutside(r, a);
        }
      }
    }
    IncreasingSameElements(Above(path, x0), MonitoringPath(x0, n));
  }

  lemma AboveNothing(x: nat)
    ensures Above([], x) == [] && Increasing(Above([], x))
  {
  }

  method MonitoringPathOf(x: nat, start: nat, n: nat) returns (path: Option<seq<nat>>)
    ensures path.Some? <==> start < n && InSubtree(x, CoverOf(start, n))
    ensures path.Some? ==> path.value == MonitoringPath(x, n)
  {
    var d := DirectPath(x, start, n);
    match d {
      case None => return None;
      case Some(ancestors) => return Some(Above(ancestors, x));
    }
  }

  // Frontier and full monitoring path -------------------------------------------

  /** The frontier, from its right end f: repeatedly the position just before the subtree. */
  function FrontierTo(start: nat, f: nat): (s: seq<nat>)
    ensures |s| > 0 && s[|s| - 1] == f
    decreases f
  {
    if Lo(f) <= start then [f] else FrontierTo(start, Lo(f) - 1) + [f]
  }

  function Frontier(start: nat, n: nat): seq<nat>
    requires start < n
  {
    FrontierTo(start, n - 1)
  }

  /** The frontier consists of the positions of [start, n) whose subtree reaches the last one. */
  lemma {:induction false} FrontierIsAncestors(start: nat, f: nat, a: nat)
    requires start <= f
    ensures a in FrontierTo(start, f) <==> start <= a <= f && InSubtree(f, a)
    decreases f
  {
    if start < Lo(f) {
      var g := Lo(f) - 1;
      LeftAncestor(f);
      FrontierIsAncestors(start, g, a);
      if a < f && InSubtree(f, a) {
        AncestorsOutside(f, a);
      }
      if a <= g && InSubtree(g, a) {
        Nested(g, a);
      }
    } else if a < f && InSubtree(f, a) {
      AncestorsOutside(f, a);
    }
  }

  lemma {:induction false} FrontierIncreasing(start: nat, f: nat)
    requires start <= f
    ensures Increasing(FrontierTo(start, f))
    ensures forall a :: a in FrontierTo(start, f) ==> start <= a <= f
    decreases f
  {
    if start < Lo(f) {
      FrontierIncreasing(start, Lo(f) - 1);
    }
  }

  /** The part of the frontier of f that ends at g, one of its members. */
  lemma {:induction false} FrontierSplit(start: nat, f: nat, g: nat)
    requires start <= g <= f && InSubtree(f, g)
    ensures |FrontierTo(start, g)| <= |FrontierTo(start, f)|
    ensures FrontierTo(start, f)[..|FrontierTo(start, g)|] == FrontierTo(start, g)
    decreases f
  {
    if g < f {
      AncestorsOutside(f, g);
      FrontierSplit(start, Lo(f) - 1, g);
    }
  }

  method FrontierOf(start: nat, n: nat) returns (frontier: Option<seq<nat>>)
    ensures frontier.Some? <==> start < n
    ensures frontier.Some? ==> frontier.value == Frontier(start, n)
    ensures frontier.Some? ==> |frontier.value| <= Log2(n) + 1
  {
    hide Log2, Lo, Hi, Level, FrontierTo;
    var root := Root(start, n);
    if root.None? {
      return None;
    }
    var last := root.value;
    FrontierStarts(start, last);
    var members := [last];
    while last != n - 1
      invariant start <= last < n && n <= Hi(last) + 1
      invariant members == FrontierTo(start, last)
      invariant |members| + Level(last) <= Log2(n) + 1
      decreases n - last
    {
      LeafOrNot(last);
      var next := Right(last, start, n);
      FrontierGoesOn(start, last, next);
      last := next;
      members := members + [last];
    }
    return Some(members);
  }

  lemma FrontierStarts(start: nat, f: nat)
    requires Lo(f) <= start
    ensures FrontierTo(start, f) == [f]
  {
  }

  lemma FrontierGoesOn(start: nat, f: nat, g: nat)
    requires start <= f && Lo(g) == f + 1
    ensures FrontierTo(start, g) == FrontierTo(start, f) + [g]
  {
  }

  /** The entries that have a full monitoring path: those in the log below the root of the search. */
  ghost predicate HasPath(x: nat, start: nat, n: nat) {
    start < n && Lo(CoverOf(start, n)) <= x < n
  }

  /** Among them are all entries of the range. */
  lemma RangeHasPath(x: nat, start: nat, n: nat)
    requires start <= x < n
    ensures HasPath(x, start, n) && InSubtree(x, CoverOf(start, n))
  {
    hide Lo, Hi;
  }

  /** An entry whose subtree reaches the end of the log is in the range. */
  lemma EndInRange(x: nat, start: nat, n: nat)
    requires HasPath(x, start, n) && n <= Hi(x) + 1
    ensures start <= x
  {
    hide Level;
    var r := CoverOf(start, n);
    if x < start {
      LeafOrNot(x);
      MutualSubtree(x, r);
    }
  }

  /** The last member of a monitoring path, or the entry itself, is on the frontier. */
  lemma {:induction false} PathMeetsFrontier(x: nat, start: nat, n: nat)
    requires HasPath(x, start, n)
    ensures var p := [x] + MonitoringPath(x, n); var m := p[|p| - 1];
      x <= m < n && n <= Hi(m) + 1 && m in Frontier(start, n)
    decreases n - x
  {
    var y := Hi(x) + 1;
    if y < n {
      PathMeetsFrontier(y, start, n);
      assert ([x] + MonitoringPath(x, n))[|MonitoringPath(x, n)|] ==
        ([y] + MonitoringPath(y, n))[|MonitoringPath(y, n)|];
    } else {
      EndInRange(x, start, n);
      FrontierIsAncestors(start, n - 1, x);
    }
  }

  /** The last position reached on the monitoring path of x. */
  function Topmost(x: nat, n: nat): (m: nat) {
    ([x] + MonitoringPath(x, n))[|MonitoringPath(x, n)|]
  }

  lemma FrontierReaches(x: nat, start: nat, n: nat)
    requires HasPath(x, start, n)
    ensures |FrontierTo(start, Topmost(x, n))| <= |Frontier(start, n)|
  {
    hide Lo, Hi, FrontierTo, MonitoringPath, InSubtree, Topmost, Increasing;
    TopmostBounds(x, start, n);
    FrontierIsAncestors(start, n - 1, Topmost(x, n));
    FrontierSplit(start, n - 1, Topmost(x, n));
  }

  /** The full monitoring path: the monitoring path, then the frontier right of its end. */
  function FullPath(x: nat, start: nat, n: nat): seq<nat>
    requires HasPath(x, start, n)
  {
    FrontierReaches(x, start, n);
    MonitoringPath(x, n) + Frontier(start, n)[|FrontierTo(start, Topmost(x, n))|..]
  }

  lemma FullPathParts(x: nat, start: nat, n: nat)
    requires HasPath(x, start, n)
    ensures var path, m, f := MonitoringPath(x, n), Topmost(x, n), Frontier(start, n);
      var c := |FrontierTo(start, m)|;
      && Increasing(path) && Increasing(f) && 0 < c <= |f|
      && FullPath(x, start, n) == path + f[c..]
      && x <= m < n && start <= m && (path == [] ==> m == x)
      && (forall i :: 0 <= i < |path| ==> x < path[i] <= m)
      && f[c - 1] == m && f[|f| - 1] == n - 1
  {
    hide Lo, Hi, InSubtree, MonitoringPath, FrontierTo, Topmost;
    var m := Topmost(x, n);
    var f := Frontier(start, n);
    TopmostBounds(x, start, n);
    FrontierIncreasing(start, n - 1);
    FrontierIsAncestors(start, n - 1, m);
    FrontierSplit(start, n - 1, m);
    assert f[|FrontierTo(start, m)| - 1] == f[..|FrontierTo(start, m)|][|FrontierTo(start, m)| - 1];
  }

  lemma TopmostBounds(x: nat, start: nat, n: nat)
    requires HasPath(x, start, n)
    ensures var path, m := MonitoringPath(x, n), Topmost(x, n);
      && Increasing(path) && (path == [] ==> m == x)
      && (forall i :: 0 <= i < |path| ==> x < path[i] <= m)
      && x <= m < n && m in Frontier(start, n)
  {
    hide Lo, Hi, InSubtree, FrontierTo, HasPath;
    var path := MonitoringPath(x, n);
    MonitoringPathIncreasing(x, n);
    PathMeetsFrontier(x, start, n);
    assert forall i :: 0 <= i < |path| ==> path[i] in path;
  }

  /** It is strictly increasing above the entry, so nothing in it needs deduplicating, and it ends at
      the last position of the log unless the entry is that position. */
  lemma FullPathShape(x: nat, start: nat, n: nat)
    requires HasPath(x, start, n)
    ensures Increasing(FullPath(x, start, n))
    ensures forall a :: a in FullPath(x, start, n) ==> x < a < n
    ensures x == n - 1 ==> FullPath(x, start, n) == []
    ensures x < n - 1 ==> var p := FullPath(x, start, n); |p| > 0 && p[|p| - 1] == n - 1
  {
    FullPathParts(x, start, n);
    hide MonitoringPath, Topmost, Frontier, FrontierTo, FullPath, HasPath, Increasing;
    TopmostIsLast(x, n);
    JoinedShape(MonitoringPath(x, n), Frontier(start, n), |FrontierTo(start, Topmost(x, n))|, x, Topmost(x, n));
  }

  /** An increasing path followed by the rest of an increasing frontier it ends on. */
  lemma JoinedShape(path: seq<nat>, f: seq<nat>, c: nat, x: nat, m: nat)
    requires Increasing(path) && Increasing(f) && 0 < c <= |f| && f[c - 1] == m && x <= m
    requires (forall i :: 0 <= i < |path| ==> x < path[i] <= m)
    requires (if path == [] then m == x else path[|path| - 1] == m)
    ensures Increasing(path + f[c..])
    ensures forall a :: a in path + f[c..] ==> x < a <= f[|f| - 1]
    ensures x == f[|f| - 1] ==> path + f[c..] == []
    ensures x < f[|f| - 1] ==> var p := path + f[c..]; |p| > 0 && p[|p| - 1] == f[|f| - 1]
  {
    var rest := f[c..];
    assert forall i :: 0 <= i < |rest| ==> m < rest[i] <= f[|f| - 1];
    assert rest != [] ==> rest[|rest| - 1] == f[|f| - 1];
  }

  lemma TopmostIsLast(x: nat, n: nat)
    ensures var path := MonitoringPath(x, n); path != [] ==> path[|path| - 1] == Topmost(x, n)
  {
  }

  /** Both parts are ancestor lines: of the entry up to n, then of the last position. */
  lemma FullPathIsAncestors(x: nat, start: nat, n: nat, a: nat)
    requires HasPath(x, start, n)
    ensures a in FullPath(x, start, n) <==>
            x < a < n && (InSubtree(x, a) || (Topmost(x, n) < a && InSubtree(n - 1, a)))
  {
    FullPathParts(x, start, n);
    hide Topmost, FullPath, MonitoringPath, FrontierTo, Lo, Hi, InSubtree;
    var path, m, f := MonitoringPath(x, n), Topmost(x, n), Frontier(start, n);
    MonitoringPathIsAncestors(x, n, a);
    FrontierIsAncestors(start, n - 1, a);
    InSuffix(f, |FrontierTo(start, m)|, a);
  }

  lemma InSuffix(f: seq<nat>, c: nat, a: nat)
    requires Increasing(f) && 0 < c <= |f|
    ensures a in f[c..] <==> a in f && f[c - 1] < a
  {
    if a in f {
      var i :| 0 <= i < |f| && f[i] == a;
      if i >= c {
        assert f[c..][i - c] == a;
      }
    }
  }

  /** The frontier after the last of its members that is among the entries (`None` models the
      source's failing `expect`). */
  method MonitoringFrontier(frontier: seq<nat>, entries: set<nat>) returns (rest: Option<seq<nat>>)
    ensures rest.None? <==> forall i :: 0 <= i < |frontier| ==> frontier[i] !in entries
    ensures rest.Some? ==> exists i ::
      && 0 <= i < |frontier| && frontier[i] in entries && rest.value == frontier[i + 1..]
      && forall j :: i < j < |frontier| ==> frontier[j] !in entries
  {
    var i := |frontier|;
    while i > 0
      invariant 0 <= i <= |frontier|
      invariant forall j :: i <= j < |frontier| ==> frontier[j] !in entries
    {
      i := i - 1;
      if frontier[i] in entries {
        return Some(frontier[i + 1..]);
      }
    }
    return None;
  }

  /** The source returns exactly for the entries that have a path. For the others it never
      returns from its walk or its `expect` fails (`None`). */
  method FullMonitoringPath(entry: nat, start: nat, n: nat) returns (full: Option<seq<nat>>)
    ensures full.Some? <==> HasPath(entry, start, n)
    ensures full.Some? ==> full.value == FullPath(entry, start, n)
  {
    hide Lo, Hi, InSubtree, Increasing, MonitoringPath, FrontierTo, HasPath, Covers, Topmost;
    var monitored := MonitoringPathOf(entry, start, n);
    PathCases(entry, start, n);
    if monitored.None? {
      return None;
    }
    var mon := monitored.value;
    MonitoringPathIncreasing(entry, n);
    IncreasingDistinct(mon);
    var path: seq<nat> := [];
    var dedup: set<nat> := {};
    for i := 0 to |mon|
      invariant path == mon[..i]
      invariant dedup == set j | 0 <= j < i :: mon[j]
    {
      if mon[i] !in dedup {
        dedup := dedup + {mon[i]};
        path := path + [mon[i]];
      }
    }
    assert mon[..|mon|] == mon;
    dedup := dedup + {entry};
    var frontier := FrontierOf(start, n);
    var rest := MonitoringFrontier(frontier.value, dedup);
    if HasPath(entry, start, n) {
      LastShared(entry, start, n, dedup);
    } else {
      FrontierIncreasing(start, n - 1);
    }
    match rest {
      case None => return None;
      case Some(more) => return Some(path + more);
    }
  }

  /** The walk ends for entries below the root; of these, those beyond the log have no path. */
  lemma PathCases(x: nat, start: nat, n: nat)
    ensures HasPath(x, start, n) ==> start < n && InSubtree(x, CoverOf(start, n))
    ensures start < n && InSubtree(x, CoverOf(start, n)) && !HasPath(x, start, n) ==>
      x >= n && MonitoringPath(x, n) == []
  {
    hide Lo;
    LeafOrNot(x);
  }

  lemma IncreasingDistinct(s: seq<nat>)
    requires Increasing(s)
    ensures forall i, j :: 0 <= i < j < |s| ==> s[i] != s[j]
  {
  }

  /** Announcing 4 positions to a client that monitors entry 8 from position 0 on, every proper ancestor
      of 8 lies beyond the log: the walk never returns. */
  lemma WalkWithoutEnd()
    ensures !HasPath(8, 0, 4) && !InSubtree(8, CoverOf(0, 4))
    ensures forall a: nat :: InSubtree(8, a) && a != 8 ==> a >= 4
  {
    assert Covers(3, 0, 4) by { assert Lo(3) == 0 && Hi(3) == 6; }
    CoversUnique(3, CoverOf(0, 4), 0, 4);
    forall a: nat | InSubtree(8, a) && a != 8 ensures a >= 4 {
      assert Hi(0) == 0 && Hi(1) == 2 && Hi(2) == 2 && Hi(3) == 6;
    }
  }

  lemma LastShared(x: nat, start: nat, n: nat, entries: set<nat>)
    requires HasPath(x, start, n)
    requires entries == (set j | 0 <= j < |MonitoringPath(x, n)| :: MonitoringPath(x, n)[j]) + {x}
    ensures var f := Frontier(start, n); var c := |FrontierTo(start, Topmost(x, n))|;
      && 0 < c <= |f| && f[c - 1] in entries
      && forall j :: c <= j < |f| ==> f[j] !in entries
  {
    TopmostEntry(x, n);
    FullPathParts(x, start, n);
    hide Topmost, FullPath, MonitoringPath, FrontierTo, Lo, Hi;
    var path, m := MonitoringPath(x, n), Topmost(x, n);
    var f := Frontier(start, n);
    assert forall i :: 0 <= i < |path| ==> path[i] <= m;
    assert forall a :: a in entries ==> a <= m;
  }

  lemma TopmostEntry(x: nat, n: nat)
    ensures Topmost(x, n) == x || Topmost(x, n) in MonitoringPath(x, n)
  {
    hide MonitoringPath;
    var path := MonitoringPath(x, n);
    if path == [] {
      assert Topmost(x, n) == ([x] + path)[0] == x;
    } else {
      assert Topmost(x, n) == path[|path| - 1];
    }
  }

  // When monitoring is next useful ---------------------------------------------------

  method FirstParentToTheRight(entry: nat) returns (size: nat)
    ensures size == Hi(entry) + 2
  {
    hide Lo, Hi, ParentStep;
    var out: nat := entry;
    while out <= entry
      invariant InSubtree(entry, out)
      invariant (out <= entry && Hi(out) == Hi(entry)) || out == Hi(entry) + 1
      decreases if out <= entry then out + 1 else 0
    {
      ParentCases(out);
      out := ParentStep(out);
    }
    size := out + 1;
  }

  /** The exact least tree size at which some entry has something new to monitor. */
  method NextMonitor(entries: seq<nat>) returns (size: nat)
    requires entries != []
    ensures exists i :: 0 <= i < |entries| && MonitoringPath(entries[i], size) != []
    ensures forall n: nat, i :: n < size && 0 <= i < |entries| ==> MonitoringPath(entries[i], n) == []
  {
    hide Lo, Hi;
    size := FirstParentToTheRight(entries[0]);
    ghost var best := 0;
    for i := 1 to |entries|
      invariant 0 <= best < |entries| && size == Hi(entries[best]) + 2
      invariant forall j :: 0 <= j < i ==> size <= Hi(entries[j]) + 2
    {
      var s := FirstParentToTheRight(entries[i]);
      if s < size {
        size, best := s, i;
      }
    }
    assert MonitoringPath(entries[best], size) != [];
  }
}
