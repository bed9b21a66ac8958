/** The copath of a batch of leaves of the Log Tree (log.rs, `batch_copath`). */
module BatchCopath {
  import opened LeftBalanced
  import opened Merkle
  import opened Sequences
  import opened LogMath

  ghost predicate Touched(xs: set<nat>, k: nat, j: nat) {
    exists x :: x in xs && Start(k, j) <= x < Start(k, j + 1)
  }

  lemma TouchedHalves(xs: set<nat>, k: nat, j: nat)
    requires k > 0
    ensures Touched(xs, k, j) <==> Touched(xs, k - 1, 2 * j) || Touched(xs, k - 1, 2 * j + 1)
  {
    hide Start;
    InnerStart(k, j);
  }

  lemma TouchedBelow(xs: set<nat>, n: nat, k: nat, j: nat)
    requires (forall x :: x in xs ==> x < n) && Touched(xs, k, j)
    ensures Start(k, j) < n
  {
  }

  /** The largest blocks below node (k, j) without any of the leaves xs, from left to right. */
  ghost function Copath(n: nat, k: nat, j: nat, xs: set<nat>): seq<nat>
    requires Start(k, j) < n
    decreases k
  {
    if !Touched(xs, k, j) then [Canon(n, k, j)]
    else if k == 0 then []
    else if Start(k - 1, 2 * j + 1) < n then Copath(n, k - 1, 2 * j, xs) + Copath(n, k - 1, 2 * j + 1, xs)
    else Copath(n, k - 1, 2 * j, xs)
  }

  ghost predicate Blocks(n: nat, k: nat, js: seq<nat>) {
    forall i :: 0 <= i < |js| ==> Start(k, js[i]) < n
  }

  ghost function CopathSum(n: nat, k: nat, js: seq<nat>, xs: set<nat>): multiset<nat>
    requires Blocks(n, k, js)
  {
    if js == [] then multiset{}
    else CopathSum(n, k, js[..|js| - 1], xs) + multiset(Copath(n, k, js[|js| - 1], xs))
  }

  /** `nodes` stand for the blocks of level k that hold some of the leaves. */
  ghost predicate Layer(n: nat, k: nat, js: seq<nat>, xs: set<nat>, nodes: seq<nat>) {
    && n > 0 && k <= Height(n) && js != [] && Increasing(js) && Blocks(n, k, js)
    && (forall j: nat :: Start(k, j) < n ==> (Touched(xs, k, j) <==> j in js))
    && |nodes| == |js| && forall i :: 0 <= i < |js| ==> nodes[i] == Canon(n, k, js[i])
  }

  /** After the first i blocks of level k: `next` stands for their parent blocks ps. */
  ghost predicate Lifted(n: nat, k: nat, js: seq<nat>, i: nat, ps: seq<nat>, next: seq<nat>)
    requires i <= |js|
  {
    && Increasing(ps) && Blocks(n, k + 1, ps)
    && |next| == |ps| && (forall t :: 0 <= t < |ps| ==> next[t] == Canon(n, k + 1, ps[t]))
    && (forall a: nat :: a in ps <==> 2 * a in js[..i] || 2 * a + 1 in js[..i])
    && (i < |js| ==> forall t :: 0 <= t < |ps| ==> ps[t] < js[i] / 2)
    && (next != [] ==> Level(next[0]) == k + 1)
  }

  /** The first blocks of js are consumed one or two at a time, a pair when both siblings are there. */
  ghost predicate Consumes(js: seq<nat>, i: nat, c: nat) {
    && i + c <= |js|
    && match c
       case 1 => i + 1 < |js| ==> js[i] / 2 < js[i + 1] / 2
       case 2 => js[i] % 2 == 0 && js[i + 1] == js[i] + 1
       case _ => false
  }

  lemma LiftOne(n: nat, k: nat, js: seq<nat>, i: nat, c: nat, ps: seq<nat>, next: seq<nat>)
    requires Increasing(js) && i < |js| && Lifted(n, k, js, i, ps, next) && Consumes(js, i, c)
    requires Start(k + 1, js[i] / 2) < n
    requires next == [] ==> Level(Canon(n, k + 1, js[i] / 2)) == k + 1
    ensures Lifted(n, k, js, i + c, ps + [js[i] / 2], next + [Canon(n, k + 1, js[i] / 2)])
  {
    hide Start, Level, Canon;
    MembersLift(js, i, c, ps);
    if i + c < |js| {
      AboveParent(js, i, c);
    }
  }

  lemma AboveParent(js: seq<nat>, i: nat, c: nat)
    requires Increasing(js) && Consumes(js, i, c) && i + c < |js|
    ensures js[i] / 2 < js[i + c] / 2
  {
    if c == 2 {
      assert js[i + 1] < js[i + 2];
    }
  }

  lemma MembersLift(js: seq<nat>, i: nat, c: nat, ps: seq<nat>)
    requires i < |js| && Consumes(js, i, c) && forall a: nat :: a in ps <==> 2 * a in js[..i] || 2 * a + 1 in js[..i]
    ensures forall a: nat :: a in ps + [js[i] / 2] <==> 2 * a in js[..i + c] || 2 * a + 1 in js[..i + c]
  {
    var extra := if c == 1 then [js[i]] else [js[i], js[i] + 1];
    assert js[..i + c] == js[..i] + extra by {
      if c == 1 {
        assert js[..i + 1] == js[..i] + [js[i]];
      } else {
        assert js[..i + 2] == js[..i] + [js[i], js[i + 1]];
      }
    }
    forall a: nat ensures a == js[i] / 2 <==> 2 * a in extra || 2 * a + 1 in extra {
    }
  }

  lemma SumPrefix(n: nat, k: nat, js: seq<nat>, i: nat, xs: set<nat>)
    requires Blocks(n, k, js) && i < |js|
    ensures CopathSum(n, k, js[..i + 1], xs) == CopathSum(n, k, js[..i], xs) + multiset(Copath(n, k, js[i], xs))
  {
    assert js[..i + 1][..i] == js[..i];
  }

  lemma SumAppend(n: nat, k: nat, js: seq<nat>, j: nat, xs: set<nat>)
    requires Blocks(n, k, js) && Start(k, j) < n
    ensures Blocks(n, k, js + [j])
    ensures CopathSum(n, k, js + [j], xs) == CopathSum(n, k, js, xs) + multiset(Copath(n, k, j, xs))
  {
    assert (js + [j])[..|js|] == js;
  }

  /** What joining a touched block with its sibling contributes to the copath. */
  lemma CopathJoin(n: nat, k: nat, j: nat, xs: set<nat>)
    requires Start(k, j) < n && Touched(xs, k, j) && Start(k, 2 * (j / 2) + 1) < n
    ensures Start(k + 1, j / 2) < n && Start(k, 2 * (j / 2)) < n
    ensures Copath(n, k + 1, j / 2, xs) == Copath(n, k, 2 * (j / 2), xs) + Copath(n, k, 2 * (j / 2) + 1, xs)
  {
    hide Start;
    InnerStart(k + 1, j / 2);
    TouchedHalves(xs, k + 1, j / 2);
  }

  /** A touched block without a sibling stands for its parent block. */
  lemma CopathPromoted(n: nat, k: nat, j: nat, xs: set<nat>)
    requires Start(k, j) < n && Touched(xs, k, j) && Start(k, 2 * (j / 2) + 1) >= n
    ensures j % 2 == 0 && Start(k + 1, j / 2) < n
    ensures Copath(n, k + 1, j / 2, xs) == Copath(n, k, j, xs)
    ensures Canon(n, k + 1, j / 2) == Canon(n, k, j)
  {
    hide Start;
    InnerStart(k + 1, j / 2);
    TouchedHalves(xs, k + 1, j / 2);
    if j % 2 == 1 {
      assert false;
    }
  }

  ghost function Other(j: nat): nat {
    if j % 2 == 0 then j + 1 else j - 1
  }

  /** For a block that has a sibling: the node above it, and the sibling, in terms of its id. */
  lemma AboveBlock(n: nat, k: nat, j: nat)
    requires n > 0 && k < Height(n) && Start(k, j) < n && Start(k, 2 * (j / 2) + 1) < n
    ensures var x, p := Canon(n, k, j), Id(k + 1, j / 2);
      && x < NodeWidth(n) && x != Root(n) && Level(x) < Height(n)
      && ParentUp(n, Level(x), Index(x)) == (k + 1, j / 2)
      && Start(k + 1, j / 2) < n && Canon(n, k + 1, j / 2) == p && p < NodeWidth(n)
      && Level(p) == k + 1 && Index(p) == j / 2
      && (if x < p then 2 * (j / 2) + 1 else 2 * (j / 2)) == Other(j)
      && Start(k, Other(j)) < n
  {
    hide Id, Start, Level, Index, Canon, Height, Root, NodeWidth;
    ParentOfCanon(n, k, j);
    LevelOfId(k + 1, j / 2);
    NodeIds(n, k + 1, j / 2);
    CanonRange(n, k, j);
    IdIsMiddle(k + 1, j / 2);
    InnerStart(k + 1, j / 2);
    assert j == 2 * (j / 2) + j % 2;
  }

  /** A block whose parent blocks have no other child, lifted to where it gets a sibling. */
  ghost function Promote(n: nat, k: nat, j: nat): (p: (nat, nat))
    requires n > 0 && k < Height(n)
    ensures k <= p.0 < Height(n)
    decreases Height(n) - k
  {
    if Start(k, 2 * (j / 2) + 1) < n || k + 1 == Height(n) then (k, j) else Promote(n, k + 1, j / 2)
  }

  lemma SingleUp(n: nat, k: nat, j: nat, xs: set<nat>, x: nat)
    requires Layer(n, k, [j], xs, [x]) && k < Height(n) && Start(k, 2 * (j / 2) + 1) >= n
    requires forall y :: y in xs ==> y < n
    ensures Start(k, j) < n && Start(k + 1, j / 2) < n && Layer(n, k + 1, [j / 2], xs, [x])
    ensures Copath(n, k + 1, j / 2, xs) == Copath(n, k, j, xs)
  {
    hide Start, Level, Canon, Height, Touched, Copath;
    assert [j][0] == j;
    CopathPromoted(n, k, j, xs);
    forall a: nat | Start(k + 1, a) < n ensures Touched(xs, k + 1, a) <==> a in [j / 2] {
      TouchedHalves(xs, k + 1, a);
      if Touched(xs, k, 2 * a) {
        TouchedBelow(xs, n, k, 2 * a);
      }
      if Touched(xs, k, 2 * a + 1) {
        TouchedBelow(xs, n, k, 2 * a + 1);
      }
    }
  }

  lemma SiblingAtTop(n: nat, k: nat, j: nat)
    requires n > 0 && k + 1 == Height(n) && Start(k, j) < n
    ensures Start(k, 2 * (j / 2) + 1) < n
  {
    hide Start, Height;
    HalfStart(n, k, j);
    TopOnly(n, k + 1, j / 2);
  }

  lemma {:induction false} PromoteKeeps(n: nat, k: nat, j: nat, xs: set<nat>, x: nat)
    requires Layer(n, k, [j], xs, [x]) && k < Height(n) && forall y :: y in xs ==> y < n
    ensures var (k2, c) := Promote(n, k, j);
      && Start(k, j) < n && Start(k2, c) < n && Start(k2, 2 * (c / 2) + 1) < n && Layer(n, k2, [c], xs, [x])
      && Copath(n, k2, c, xs) == Copath(n, k, j, xs)
    decreases Height(n) - k
  {
    hide Start, Canon, Height, Touched, Copath;
    assert [j][0] == j;
    if Start(k, 2 * (j / 2) + 1) < n {
    } else if k + 1 == Height(n) {
      SiblingAtTop(n, k, j);
    } else {
      SingleUp(n, k, j, xs, x);
      PromoteKeeps(n, k + 1, j / 2, xs, x);
    }
  }

  /** The level of the node above tells whether the block next to nothing is its own parent block. */
  lemma {:induction false} PromotedParent(n: nat, k: nat, j: nat)
    requires n > 0 && k < Height(n) && Start(k, j) < n
    ensures ParentUp(n, k, j).0 > k + 1 <==> Start(k, 2 * (j / 2) + 1) >= n
  {
    if k + 1 == Height(n) {
      SiblingAtTop(n, k, j);
    }
  }

  lemma NextBlockBelow(n: nat, k: nat, js: seq<nat>, i: nat)
    requires Increasing(js) && Blocks(n, k, js) && i + 1 < |js|
    ensures Start(k, 2 * (js[i] / 2) + 1) < n
  {
    hide Start;
    var j := js[i];
    var m := 2 * (j / 2) + 1;
    assert m <= j + 1 <= js[i + 1];
    if m < js[i + 1] {
      StartMono(k, m, js[i + 1]);
    }
  }

  lemma CanonInjective(n: nat, k: nat, i: nat, j: nat)
    requires Start(k, i) < n && Start(k, j) < n && i < j
    ensures Canon(n, k, i) < Canon(n, k, j)
  {
    hide Start, Canon;
    CanonRange(n, k, i);
    CanonRange(n, k, j);
    if i + 1 < j {
      StartMono(k, i + 1, j);
    }
  }

  ghost predicate Balance(n: nat, k: nat, js: seq<nat>, i: nat, ps: seq<nat>, xs: set<nat>, out: seq<nat>)
    requires i <= |js| && Blocks(n, k, js) && Blocks(n, k + 1, ps)
  {
    multiset(out) + CopathSum(n, k, js[..i], xs) == CopathSum(n, k, js, xs) + CopathSum(n, k + 1, ps, xs)
  }

  lemma Shifted(o: multiset<nat>, a: multiset<nat>, s: multiset<nat>, p: multiset<nat>, d: multiset<nat>,
                e: multiset<nat>)
    requires o + a == s + p
    ensures (o + e) + (a + d) == s + (p + (d + e)) && o + (a + d + e) == s + (p + (d + e))
  {
    assert (o + e) + (a + d) == (o + a) + (d + e);
    assert o + (a + d + e) == (o + a) + (d + e);
  }

  lemma JoinSum(n: nat, k: nat, j: nat, xs: set<nat>)
    requires Start(k, j) < n && Start(k, Other(j)) < n && Touched(xs, k, j)
    ensures Start(k + 1, j / 2) < n
    ensures multiset(Copath(n, k + 1, j / 2, xs)) ==
      multiset(Copath(n, k, j, xs)) + multiset(Copath(n, k, Other(j), xs))
  {
    hide Start, Copath, Touched;
    var a := j / 2;
    if j % 2 == 0 {
      assert j == 2 * a && Other(j) == 2 * a + 1;
    } else {
      assert j == 2 * a + 1 && Other(j) == 2 * a;
    }
    CopathJoin(n, k, j, xs);
  }

  lemma BalancePair(n: nat, k: nat, js: seq<nat>, i: nat, ps: seq<nat>, xs: set<nat>, out: seq<nat>)
    requires Blocks(n, k, js) && Blocks(n, k + 1, ps) && i + 2 <= |js| && Balance(n, k, js, i, ps, xs, out)
    requires js[i] % 2 == 0 && js[i + 1] == js[i] + 1 && Touched(xs, k, js[i])
    ensures Start(k + 1, js[i] / 2) < n && Blocks(n, k + 1, ps + [js[i] / 2])
    ensures Balance(n, k, js, i + 2, ps + [js[i] / 2], xs, out)
  {
    hide Start, Copath, CopathSum, Touched;
    JoinSum(n, k, js[i], xs);
    SumPrefix(n, k, js, i, xs);
    SumPrefix(n, k, js, i + 1, xs);
    SumAppend(n, k + 1, ps, js[i] / 2, xs);
    Shifted(multiset(out), CopathSum(n, k, js[..i], xs), CopathSum(n, k, js, xs), CopathSum(n, k + 1, ps, xs),
            multiset(Copath(n, k, js[i], xs)), multiset(Copath(n, k, js[i + 1], xs)));
  }

  lemma BalanceSibling(n: nat, k: nat, js: seq<nat>, i: nat, ps: seq<nat>, xs: set<nat>, out: seq<nat>)
    requires Blocks(n, k, js) && Blocks(n, k + 1, ps) && i < |js| && Balance(n, k, js, i, ps, xs, out)
    requires Touched(xs, k, js[i]) && Start(k, Other(js[i])) < n && !Touched(xs, k, Other(js[i]))
    ensures Start(k + 1, js[i] / 2) < n && Blocks(n, k + 1, ps + [js[i] / 2])
    ensures Balance(n, k, js, i + 1, ps + [js[i] / 2], xs, out + [Canon(n, k, Other(js[i]))])
  {
    hide Start, Copath, CopathSum, Touched, Canon, Other;
    CopathOfUntouched(n, k, Other(js[i]), xs);
    JoinSum(n, k, js[i], xs);
    SumPrefix(n, k, js, i, xs);
    SumAppend(n, k + 1, ps, js[i] / 2, xs);
    var s := Canon(n, k, Other(js[i]));
    assert multiset(out + [s]) == multiset(out) + multiset([s]);
    Shifted(multiset(out), CopathSum(n, k, js[..i], xs), CopathSum(n, k, js, xs), CopathSum(n, k + 1, ps, xs),
            multiset(Copath(n, k, js[i], xs)), multiset([s]));
  }

  lemma BalancePromoted(n: nat, k: nat, js: seq<nat>, i: nat, ps: seq<nat>, xs: set<nat>, out: seq<nat>)
    requires Blocks(n, k, js) && Blocks(n, k + 1, ps) && i < |js| && Balance(n, k, js, i, ps, xs, out)
    requires Touched(xs, k, js[i]) && Start(k, 2 * (js[i] / 2) + 1) >= n
    ensures Start(k + 1, js[i] / 2) < n && Blocks(n, k + 1, ps + [js[i] / 2])
    ensures Canon(n, k + 1, js[i] / 2) == Canon(n, k, js[i])
    ensures Balance(n, k, js, i + 1, ps + [js[i] / 2], xs, out)
  {
    hide Start, Copath, CopathSum, Touched, Canon;
    CopathPromoted(n, k, js[i], xs);
    SumPrefix(n, k, js, i, xs);
    SumAppend(n, k + 1, ps, js[i] / 2, xs);
    var a, d := CopathSum(n, k, js[..i], xs), multiset(Copath(n, k, js[i], xs));
    Shifted(multiset(out), a, CopathSum(n, k, js, xs), CopathSum(n, k + 1, ps, xs), d, multiset{});
    assert d + multiset{} == d && a + d + multiset{} == a + d;
  }

  lemma CopathOfUntouched(n: nat, k: nat, j: nat, xs: set<nat>)
    requires Start(k, j) < n && !Touched(xs, k, j)
    ensures Copath(n, k, j, xs) == [Canon(n, k, j)]
  {
  }

  lemma SamePair(j: nat)
    ensures Other(j) / 2 == j / 2 && (Other(j) == 2 * (j / 2) || Other(j) == 2 * (j / 2) + 1)
  {
  }

  /** The sibling of a block that is not joined with a neighbour holds none of the leaves. */
  lemma SiblingUntouched(n: nat, k: nat, js: seq<nat>, i: nat, ps: seq<nat>, next: seq<nat>, xs: set<nat>,
                         nodes: seq<nat>)
    requires Layer(n, k, js, xs, nodes) && i < |js| && Lifted(n, k, js, i, ps, next)
    requires Start(k, Other(js[i])) < n && !(i + 1 < |js| && js[i] % 2 == 0 && js[i + 1] == js[i] + 1)
    ensures !Touched(xs, k, Other(js[i])) && Consumes(js, i, 1)
  {
    hide Start, Level, Canon, Touched, Height;
    var o := Other(js[i]);
    SamePair(js[i]);
    assert o !in js[..i];
    assert o !in js[i + 1..];
    assert js == js[..i] + [js[i]] + js[i + 1..];
    assert o !in js;
    assert i + 1 < |js| ==> js[i + 1] != o;
  }

  lemma LayerDone(n: nat, k: nat, js: seq<nat>, ps: seq<nat>, next: seq<nat>, xs: set<nat>, nodes: seq<nat>)
    requires Layer(n, k, js, xs, nodes) && k < Height(n) && Lifted(n, k, js, |js|, ps, next)
    requires forall x :: x in xs ==> x < n
    ensures Layer(n, k + 1, ps, xs, next)
  {
    hide Start, Level, Canon, Height, Touched;
    assert js[..|js|] == js;
    assert js[0] / 2 in ps by { assert js[0] == 2 * (js[0] / 2) || js[0] == 2 * (js[0] / 2) + 1; }
    forall a: nat | Start(k + 1, a) < n ensures Touched(xs, k + 1, a) <==> a in ps {
      TouchedHalves(xs, k + 1, a);
      if Touched(xs, k, 2 * a) {
        TouchedBelow(xs, n, k, 2 * a);
      }
      if Touched(xs, k, 2 * a + 1) {
        TouchedBelow(xs, n, k, 2 * a + 1);
      }
    }
  }

  /** The ghost state of combining one level. */
  ghost predicate Combining(n: nat, k: nat, js: seq<nat>, xs: set<nat>, all: seq<nat>, i: nat, ps: seq<nat>,
                            next: seq<nat>, out: seq<nat>) {
    && Layer(n, k, js, xs, all) && k < Height(n) && i <= |js| && (forall x :: x in xs ==> x < n)
    && Lifted(n, k, js, i, ps, next) && Balance(n, k, js, i, ps, xs, out)
  }

  lemma BlockAt(n: nat, k: nat, js: seq<nat>, xs: set<nat>, all: seq<nat>, i: nat)
    requires Layer(n, k, js, xs, all) && i < |js|
    ensures Start(k, js[i]) < n && all[i] == Canon(n, k, js[i]) && Touched(xs, k, js[i])
  {
  }

  lemma CombinePair(n: nat, k: nat, js: seq<nat>, xs: set<nat>, all: seq<nat>, i: nat, ps: seq<nat>, next: seq<nat>,
                    out: seq<nat>,
                    a: nat, m: nat)
    requires Start(k, m) < n && i + 1 < |js| == |all| && all[i + 1] == Canon(n, k, m)
    requires a == js[i] / 2 && m == 2 * a + 1
    requires Combining(n, k, js, xs, all, i, ps, next, out)
    ensures Start(k + 1, a) < n && Combining(n, k, js, xs, all, i + 2, ps + [a], next + [Canon(n, k + 1, a)], out)
  {
    hide Start, Level, Canon, Height, Touched, CopathSum, Blocks, Lifted, Balance;
    BlockAt(n, k, js, xs, all, i);
    BlockAt(n, k, js, xs, all, i + 1);
    if m < js[i + 1] {
      CanonInjective(n, k, m, js[i + 1]);
    }
    AboveBlock(n, k, js[i]);
    LiftedBlocks(n, k, js, i, ps, next);
    BalancePair(n, k, js, i, ps, xs, out);
    LiftOne(n, k, js, i, 2, ps, next);
  }

  lemma LiftedBlocks(n: nat, k: nat, js: seq<nat>, i: nat, ps: seq<nat>, next: seq<nat>)
    requires i <= |js| && Lifted(n, k, js, i, ps, next)
    ensures Blocks(n, k + 1, ps) && |next| == |ps| && (next != [] ==> Level(next[0]) == k + 1)
  {
  }

  lemma NotPaired(n: nat, k: nat, js: seq<nat>, xs: set<nat>, all: seq<nat>, i: nat)
    requires i < |js| == |all| && Start(k, 2 * (js[i] / 2) + 1) < n
    requires i + 1 < |js| ==> Canon(n, k, 2 * (js[i] / 2) + 1) != all[i + 1]
    requires Layer(n, k, js, xs, all)
    ensures !(i + 1 < |js| && js[i] % 2 == 0 && js[i + 1] == js[i] + 1)
  {
    hide Start, Level, Canon, Height, Touched;
    if i + 1 < |js| {
      BlockAt(n, k, js, xs, all, i + 1);
    }
  }

  lemma CombineSibling(n: nat, k: nat, js: seq<nat>, xs: set<nat>, all: seq<nat>, i: nat, ps: seq<nat>, next: seq<nat>,
                       out: seq<nat>,
                       a: nat, m: nat, o: nat)
    requires i < |js| == |all| && Start(k, m) < n && (i + 1 < |js| ==> all[i + 1] != Canon(n, k, m))
    requires a == js[i] / 2 && m == 2 * a + 1 && o == Other(js[i])
    requires Combining(n, k, js, xs, all, i, ps, next, out)
    ensures Start(k + 1, a) < n && Start(k, o) < n
    ensures Combining(n, k, js, xs, all, i + 1, ps + [a], next + [Canon(n, k + 1, a)], out + [Canon(n, k, o)])
  {
    hide Start, Level, Canon, Height, Touched, CopathSum, Blocks, Lifted, Balance;
    BlockAt(n, k, js, xs, all, i);
    NotPaired(n, k, js, xs, all, i);
    AboveBlock(n, k, js[i]);
    LiftedBlocks(n, k, js, i, ps, next);
    SiblingUntouched(n, k, js, i, ps, next, xs, all);
    BalanceSibling(n, k, js, i, ps, xs, out);
    LiftOne(n, k, js, i, 1, ps, next);
  }

  lemma CombinePromoted(n: nat, k: nat, js: seq<nat>, xs: set<nat>, all: seq<nat>, i: nat, ps: seq<nat>, next: seq<nat>,
                        out: seq<nat>)
    requires i + 1 == |js| == |all| && next != [] && Start(k, js[i]) < n && Start(k, 2 * (js[i] / 2) + 1) >= n
    requires Combining(n, k, js, xs, all, i, ps, next, out)
    ensures Combining(n, k, js, xs, all, i + 1, ps + [js[i] / 2], next + [all[i]], out)
  {
    hide Start, Level, Canon, Height, Touched, CopathSum, Blocks, Lifted, Balance;
    BlockAt(n, k, js, xs, all, i);
    LiftedBlocks(n, k, js, i, ps, next);
    BalancePromoted(n, k, js, i, ps, xs, out);
    LiftOne(n, k, js, i, 1, ps, next);
  }

  lemma CombiningStart(n: nat, k: nat, js: seq<nat>, xs: set<nat>, all: seq<nat>, out: seq<nat>)
    requires Layer(n, k, js, xs, all) && k < Height(n) && (forall x :: x in xs ==> x < n)
    requires multiset(out) == CopathSum(n, k, js, xs)
    ensures Combining(n, k, js, xs, all, 0, [], [], out) && |all| == |js| > 0
  {
  }

  lemma CombiningEnd(n: nat, k: nat, js: seq<nat>, xs: set<nat>, all: seq<nat>, ps: seq<nat>, next: seq<nat>,
                     out: seq<nat>)
    requires Combining(n, k, js, xs, all, |js|, ps, next, out)
    ensures Layer(n, k + 1, ps, xs, next) && multiset(out) == CopathSum(n, k + 1, ps, xs)
  {
    hide Start, Level, Canon, Height, Touched, CopathSum, Blocks, Lifted;
    LayerDone(n, k, js, ps, next, xs, all);
    assert js[..|js|] == js;
    Cancelled(multiset(out), CopathSum(n, k, js, xs), CopathSum(n, k + 1, ps, xs));
  }

  lemma Cancelled(o: multiset<nat>, s: multiset<nat>, p: multiset<nat>)
    requires o + s == s + p
    ensures o == p
  {
    assert o == o + s - s && p == s + p - s;
  }

  lemma CombiningBlock(n: nat, k: nat, js: seq<nat>, xs: set<nat>, all: seq<nat>, i: nat, ps: seq<nat>, next: seq<nat>,
                       out: seq<nat>)
    requires Combining(n, k, js, xs, all, i, ps, next, out) && i < |js|
    ensures n > 0 && k < Height(n) && |all| == |js| && Start(k, js[i]) < n && all[i] == Canon(n, k, js[i])
    ensures i + 1 < |js| ==> Start(k, 2 * (js[i] / 2) + 1) < n
    ensures next != [] ==> Level(next[0]) == k + 1
    ensures next == [] ==> i == 0
  {
    hide Start, Level, Canon, Height, Touched, CopathSum, Balance;
    BlockAt(n, k, js, xs, all, i);
    if i + 1 < |js| {
      NextBlockBelow(n, k, js, i);
    }
    if i > 0 {
      assert js[0] in js[..i];
      assert js[0] == 2 * (js[0] / 2) + js[0] % 2;
      assert js[0] / 2 in ps;
    }
  }

  /** The last node of a level, left over without a neighbour to its right. */
  method CombineRest(x: nat, n: nat, next0: seq<nat>, out0: seq<nat>, ghost k: nat, ghost js: seq<nat>,
                     ghost xs: set<nat>,
                     ghost all: seq<nat>, ghost i: nat, ghost ps: seq<nat>)
    returns (next: seq<nat>, out: seq<nat>, ghost k': nat, ghost js': seq<nat>)
    requires Combining(n, k, js, xs, all, i, ps, next0, out0) && i + 1 == |js| == |all| && x == all[i]
    ensures k < k' && Layer(n, k', js', xs, next) && multiset(out) == CopathSum(n, k', js', xs)
  {
    hide Start, Level, Index, Canon, Height, Touched, CopathSum, Copath, Blocks, Root, NodeWidth, Id, ParentUp, Other,
         Layer, Combining, Lifted, Balance, Promote;
    CombiningBlock(n, k, js, xs, all, i, ps, next0, out0);
    ghost var j := js[i];
    ParentOfCanon(n, k, j);
    PromotedParent(n, k, j);
    var q := Parent(x, n);
    LevelOfId(ParentUp(n, k, j).0, ParentUp(n, k, j).1);
    if next0 != [] && Level(q) > Level(next0[0]) {
      CombinePromoted(n, k, js, xs, all, i, ps, next0, out0);
      k', js' := k + 1, ps + [j / 2];
      next, out := next0 + [x], out0;
      CombiningEnd(n, k, js, xs, all, js', next, out);
    } else {
      ghost var k2, js2, ps2 := k, js, ps;
      if next0 == [] {
        SingleBlock(n, k, js, xs, all, ps, out0);
        k2, js2, ps2 := Promote(n, k, j).0, [Promote(n, k, j).1], [];
      }
      ghost var c := js2[i];
      AboveBlock(n, k2, c);
      CombineSibling(n, k2, js2, xs, all, i, ps2, next0, out0, js2[i] / 2, 2 * (js2[i] / 2) + 1, Other(js2[i]));
      var s := Sibling(x, n);
      out := out0 + [s];
      next := next0 + [q];
      k', js' := k2 + 1, ps2 + [c / 2];
      CombiningEnd(n, k2, js2, xs, all, js', next, out);
    }
  }

  lemma SingleBlock(n: nat, k: nat, js: seq<nat>, xs: set<nat>, all: seq<nat>, ps: seq<nat>, out: seq<nat>)
    requires |js| == 1 && |all| == 1 && Combining(n, k, js, xs, all, 0, ps, [], out)
    ensures var (k2, c) := Promote(n, k, js[0]);
      && Start(k2, c) < n && Start(k2, 2 * (c / 2) + 1) < n && all[0] == Canon(n, k2, c)
      && Combining(n, k2, [c], xs, all, 0, [], [], out)
  {
    hide Start, Level, Canon, Height, Touched, Copath, Promote, CopathSum, Lifted, Layer;
    var j := js[0];
    assert js == [j] && all == [all[0]];
    PromoteKeeps(n, k, j, xs, all[0]);
    var (k2, c) := Promote(n, k, j);
    BlockAt(n, k2, [c], xs, all, 0);
    SingleSum(n, k, j, xs);
    SingleSum(n, k2, c, xs);
    BalanceAtStart(n, k, [j], xs, ps, out);
    CombiningStart(n, k2, [c], xs, all, out);
  }

  lemma SingleSum(n: nat, k: nat, j: nat, xs: set<nat>)
    requires Start(k, j) < n
    ensures Blocks(n, k, [j]) && CopathSum(n, k, [j], xs) == multiset(Copath(n, k, j, xs))
  {
    hide Start, Copath;
    assert [j][..0] == [];
  }

  lemma BalanceAtStart(n: nat, k: nat, js: seq<nat>, xs: set<nat>, ps: seq<nat>, out: seq<nat>)
    requires Blocks(n, k, js) && Lifted(n, k, js, 0, ps, []) && Balance(n, k, js, 0, ps, xs, out)
    ensures multiset(out) == CopathSum(n, k, js, xs)
  {
    hide Start, Copath, Canon, Level;
    assert js[..0] == [] && ps == [];
    assert multiset(out) + multiset{} == multiset(out);
    assert CopathSum(n, k, js, xs) + multiset{} == CopathSum(n, k, js, xs);
  }

  /** One pass of the copath computation: joins the nodes of a level with their siblings. */
  method CombineLevel(all: seq<nat>, n: nat, out0: seq<nat>, ghost k: nat, ghost js: seq<nat>, ghost xs: set<nat>)
    returns (next: seq<nat>, out: seq<nat>, ghost k': nat, ghost js': seq<nat>)
    requires Layer(n, k, js, xs, all) && k < Height(n) && (forall x :: x in xs ==> x < n)
    requires multiset(out0) == CopathSum(n, k, js, xs)
    ensures k < k' && Layer(n, k', js', xs, next) && multiset(out) == CopathSum(n, k', js', xs)
  {
    hide Start, Level, Index, Canon, Height, Touched, CopathSum, Blocks, Root, NodeWidth, Id, ParentUp, Other, Layer,
         Combining, Lifted, Balance;
    next, out := [], out0;
    var nodes := all;
    ghost var i, ps: seq<nat> := 0, [];
    CombiningStart(n, k, js, xs, all, out);
    while |nodes| > 1
      invariant i + |nodes| == |js| && nodes == all[i..] && |ps| == |next|
      invariant Combining(n, k, js, xs, all, i, ps, next, out)
    {
      CombiningBlock(n, k, js, xs, all, i, ps, next, out);
      AboveBlock(n, k, js[i]);
      var p := Parent(nodes[0], n);
      var r := Right(p, n);
      if r == nodes[1] {
        CombinePair(n, k, js, xs, all, i, ps, next, out, js[i] / 2, 2 * (js[i] / 2) + 1);
        nodes := nodes[2..];
        i, ps := i + 2, ps + [js[i] / 2];
      } else {
        CombineSibling(n, k, js, xs, all, i, ps, next, out, js[i] / 2, 2 * (js[i] / 2) + 1, Other(js[i]));
        var s := Sibling(nodes[0], n);
        out := out + [s];
        nodes := nodes[1..];
        i, ps := i + 1, ps + [js[i] / 2];
      }
      next := next + [p];
    }
    if |nodes| == 1 {
      next, out, k', js' := CombineRest(nodes[0], n, next, out, k, js, xs, all, i, ps);
    } else {
      k', js' := k + 1, ps;
      CombiningEnd(n, k, js, xs, all, ps, next, out);
    }
  }

  function Doubled(leaves: seq<nat>): (s: seq<nat>)
    ensures |s| == |leaves| && forall i :: 0 <= i < |s| ==> s[i] == 2 * leaves[i]
  {
    seq(|leaves|, i requires 0 <= i < |leaves| => 2 * leaves[i])
  }

  ghost predicate LeafList(leaves: seq<nat>, n: nat) {
    leaves != [] && Increasing(leaves) && forall i :: 0 <= i < |leaves| ==> leaves[i] < n
  }

  ghost function Elements(s: seq<nat>): set<nat> {
    set x | x in s
  }

  lemma FirstLayer(leaves: seq<nat>, n: nat)
    requires LeafList(leaves, n)
    ensures Layer(n, 0, leaves, Elements(leaves), Doubled(leaves))
    ensures CopathSum(n, 0, leaves, Elements(leaves)) == multiset{}
    ensures n > 0 && forall x :: x in Elements(leaves) ==> x < n
  {
    hide Touched, CopathSum;
    assert leaves[0] < n;
    var xs := Elements(leaves);
    forall j: nat ensures Touched(xs, 0, j) <==> j in leaves {
      TouchedLeaf(xs, j);
    }
    LeavesOnly(n, leaves, xs);
  }

  lemma TouchedLeaf(xs: set<nat>, j: nat)
    ensures Touched(xs, 0, j) <==> j in xs
  {
    assert Start(0, j) <= j < Start(0, j + 1);
  }

  lemma {:induction false} LeavesOnly(n: nat, js: seq<nat>, xs: set<nat>)
    requires Blocks(n, 0, js) && forall i :: 0 <= i < |js| ==> js[i] in xs
    ensures CopathSum(n, 0, js, xs) == multiset{}
  {
    if js != [] {
      LeavesOnly(n, js[..|js| - 1], xs);
      var j := js[|js| - 1];
      assert Touched(xs, 0, j);
      assert Copath(n, 0, j, xs) == [];
    }
  }

  /** The level loop ends exactly at the root. */
  lemma TopLayer(n: nat, k: nat, js: seq<nat>, xs: set<nat>, nodes: seq<nat>)
    requires Layer(n, k, js, xs, nodes)
    ensures |nodes| == 1 && nodes[0] == Root(n) <==> k == Height(n)
    ensures k == Height(n) ==>
      js == [0] && Start(k, 0) < n && Touched(xs, k, 0) && CopathSum(n, k, js, xs) == multiset(Copath(n, k, 0, xs))
  {
    hide Start, Canon, Height, Touched, Root, Level, CopathSum, Copath, Id;
    RootIsTop(n);
    LevelOfId(Height(n), 0);
    if k == Height(n) {
      if |js| > 1 {
        assert js[0] < js[1];
        TopOnly(n, k, js[1]);
      }
      TopOnly(n, k, js[0]);
      assert js == [0];
      SingleSum(n, k, 0, xs);
    } else {
      CanonBelow(n, k, js[0]);
    }
  }

  lemma {:induction false} CopathSeparated(n: nat, k: nat, j: nat, xs: set<nat>)
    requires Start(k, j) < n
    ensures Separated(Copath(n, k, j, xs)) && Within(Copath(n, k, j, xs), k, j)
    decreases k
  {
    hide Start, Canon, Lo, Hi;
    CanonSpan(n, k, j);
    if k > 0 {
      InnerStart(k, j);
      CopathSeparated(n, k - 1, 2 * j, xs);
      if Start(k - 1, 2 * j + 1) < n {
        CopathSeparated(n, k - 1, 2 * j + 1, xs);
        JoinSeparated(Copath(n, k - 1, 2 * j, xs), Copath(n, k - 1, 2 * j + 1, xs), k, j);
      }
    }
  }

  lemma DoubledIncreasing(leaves: seq<nat>)
    requires Increasing(leaves)
    ensures Increasing(Doubled(leaves))
  {
  }

  lemma LayerHeight(n: nat, k: nat, js: seq<nat>, xs: set<nat>, nodes: seq<nat>)
    requires Layer(n, k, js, xs, nodes)
    ensures n > 0 && k <= Height(n) && Blocks(n, k, js)
  {
  }

  /** Computes the copath level by level, from the leaves up to the root. */
  method CopathOf(leaves: seq<nat>, n: nat) returns (out: seq<nat>)
    requires LeafList(leaves, n)
    ensures n > 0 && Start(Height(n), 0) < n && out == Copath(n, Height(n), 0, Elements(leaves))
  {
    hide Start, Canon, Height, Touched, Root, Level, CopathSum, Copath, Layer, Increasing, Separated, Within;
    ghost var k, js, xs := 0, leaves, Elements(leaves);
    FirstLayer(leaves, n);
    DoubledIncreasing(leaves);
    SortOfIncreasing(Doubled(leaves));
    var nodes := Sort(Doubled(leaves));
    out := [];
    var root := Root(n);
    LayerHeight(n, k, js, xs, nodes);
    TopLayer(n, k, js, xs, nodes);
    while !(|nodes| == 1 && nodes[0] == root)
      invariant Layer(n, k, js, xs, nodes) && n > 0 && k <= Height(n) && Blocks(n, k, js)
      invariant multiset(out) == CopathSum(n, k, js, xs)
      invariant |nodes| == 1 && nodes[0] == root <==> k == Height(n)
      decreases Height(n) - k
    {
      nodes, out, k, js := CombineLevel(nodes, n, out, k, js, xs);
      LayerHeight(n, k, js, xs, nodes);
      TopLayer(n, k, js, xs, nodes);
    }
    TopLayer(n, k, js, xs, nodes);
    CopathSeparated(n, k, 0, xs);
    SeparatedIncreasing(Copath(n, k, 0, xs));
    IncreasingIsSorted(Copath(n, k, 0, xs));
    SortSorts(out);
    SortedUnique(Sort(out), Copath(n, k, 0, xs));
    out := Sort(out);
  }

  ghost predicate Spanned(ids: seq<nat>, leaf: nat) {
    exists t :: 0 <= t < |ids| && InSubtree(2 * leaf, ids[t])
  }

  lemma SpannedConcat(l: seq<nat>, r: seq<nat>, leaf: nat)
    ensures Spanned(l + r, leaf) <==> Spanned(l, leaf) || Spanned(r, leaf)
  {
    hide InSubtree;
    if Spanned(l, leaf) {
      var t :| 0 <= t < |l| && InSubtree(2 * leaf, l[t]);
      assert (l + r)[t] == l[t];
    }
    if Spanned(r, leaf) {
      var t :| 0 <= t < |r| && InSubtree(2 * leaf, r[t]);
      assert (l + r)[|l| + t] == r[t];
    }
  }

  lemma SpannedInside(n: nat, k: nat, j: nat, xs: set<nat>, leaf: nat)
    requires Start(k, j) < n && Spanned(Copath(n, k, j, xs), leaf)
    ensures Start(k, j) <= leaf < Start(k, j + 1)
  {
    hide Start, Copath, Lo, Hi;
    CopathSeparated(n, k, j, xs);
  }

  /** The copath and the given leaves partition the log: a leaf is below a copath node iff it is not
      given, and by `CopathSeparated` it is then below only one. */
  lemma {:induction false} CopathPartitions(n: nat, k: nat, j: nat, xs: set<nat>, leaf: nat)
    requires Start(k, j) < n && Start(k, j) <= leaf < BlockEnd(n, k, j)
    ensures Spanned(Copath(n, k, j, xs), leaf) <==> leaf !in xs
    decreases k
  {
    hide Start, Canon, BlockEnd, Spanned;
    BlockBounds(n, k, j);
    if !Touched(xs, k, j) {
      CanonSpansLeaf(n, k, j, leaf, xs);
    } else if k == 0 {
      LeafTouched(n, j, xs, leaf);
    } else {
      InnerStart(k, j);
      if Start(k - 1, 2 * j + 1) < n {
        var l, r := Copath(n, k - 1, 2 * j, xs), Copath(n, k - 1, 2 * j + 1, xs);
        SpannedConcat(l, r, leaf);
        if leaf < Start(k - 1, 2 * j + 1) {
          CopathPartitions(n, k - 1, 2 * j, xs, leaf);
          if Spanned(r, leaf) { SpannedInside(n, k - 1, 2 * j + 1, xs, leaf); }
        } else {
          CopathPartitions(n, k - 1, 2 * j + 1, xs, leaf);
          if Spanned(l, leaf) { SpannedInside(n, k - 1, 2 * j, xs, leaf); }
        }
      } else {
        CopathPartitions(n, k - 1, 2 * j, xs, leaf);
      }
    }
  }

  lemma CanonSpansLeaf(n: nat, k: nat, j: nat, leaf: nat, xs: set<nat>)
    requires Start(k, j) < n && Start(k, j) <= leaf < BlockEnd(n, k, j) && !Touched(xs, k, j)
    ensures leaf !in xs && Spanned([Canon(n, k, j)], leaf)
  {
    hide Start, Canon, Lo, Hi;
    CanonSpan(n, k, j);
    assert InSubtree(2 * leaf, [Canon(n, k, j)][0]);
  }

  lemma LeafTouched(n: nat, j: nat, xs: set<nat>, leaf: nat)
    requires Start(0, j) < n && Start(0, j) <= leaf < BlockEnd(n, 0, j) && Touched(xs, 0, j)
    ensures leaf in xs && !Spanned([], leaf)
  {
  }

  /** Every copath node stands for a block without given leaves whose sibling block has one. */
  lemma {:induction false} CopathSiblings(n: nat, k: nat, j: nat, xs: set<nat>, t: nat) returns (k': nat, j': nat)
    requires Start(k, j) < n && Touched(xs, k, j) && t < |Copath(n, k, j, xs)|
    requires forall x :: x in xs ==> x < n
    ensures k' < k && Start(k', j') < n && Copath(n, k, j, xs)[t] == Canon(n, k', j')
    ensures !Touched(xs, k', j') && Touched(xs, k', Other(j'))
    decreases k
  {
    hide Start, Canon, Touched;
    TouchedHalves(xs, k, j);
    InnerStart(k, j);
    var l := Copath(n, k - 1, 2 * j, xs);
    var i, c := 2 * j, t;
    if Start(k - 1, 2 * j + 1) < n {
      if t >= |l| {
        i, c := 2 * j + 1, t - |l|;
      }
    } else if Touched(xs, k - 1, 2 * j + 1) {
      TouchedBelow(xs, n, k - 1, 2 * j + 1);
    }
    if Touched(xs, k - 1, i) {
      k', j' := CopathSiblings(n, k - 1, i, xs, c);
    } else {
      k', j' := k - 1, i;
    }
  }
}
