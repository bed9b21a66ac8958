/** Sorting a certificate chain from leaf to root, in place (attest cert_chain.rs). */
module CertChain {
  import opened Wrappers

  datatype Error = EmptyChain | InvalidChain

  /** Whether the first certificate issued the second. */
  type Issued<!C> = (C, C) -> bool

  /** From leaf to root: each certificate is issued by the next, the last one by itself. */
  ghost predicate IsChain<C>(issued: Issued<C>, s: seq<C>) {
    && s != [] && issued(s[|s| - 1], s[|s| - 1])
    && forall i :: 0 <= i < |s| - 1 ==> issued(s[i + 1], s[i])
  }

  /** A chain without detours: every self-issued certificate equals its root, and of the certificates below
      one, only those equal to the next are issued by it. */
  ghost predicate IsLinear<C>(issued: Issued<C>, s: seq<C>) {
    && IsChain(issued, s)
    && (forall i :: 0 <= i < |s| && issued(s[i], s[i]) ==> s[i] == s[|s| - 1])
    && (forall k, t :: 0 <= t < k < |s| && issued(s[k], s[t]) ==> s[t] == s[k - 1])
  }

  // The search as a function ---------------------------------------------------------------------

  function Swapped<C>(s: seq<C>, i: nat, j: nat): (r: seq<C>)
    requires i < |s| && j < |s|
    ensures |r| == |s|
  {
    s[i := s[j]][j := s[i]]
  }

  /** The last self-issued certificate before position n. */
  function LastRoot<C>(issued: Issued<C>, s: seq<C>, n: nat): (r: Option<nat>)
    requires n <= |s|
    ensures r.Some? ==> r.value < n && issued(s[r.value], s[r.value])
    ensures r.None? ==> forall i :: 0 <= i < n ==> !issued(s[i], s[i])
  {
    if n == 0 then None else if issued(s[n - 1], s[n - 1]) then Some(n - 1) else LastRoot(issued, s, n - 1)
  }

  /** The last certificate before position n that c issued. */
  function LastFrom<C>(issued: Issued<C>, c: C, s: seq<C>, n: nat): (r: Option<nat>)
    requires n <= |s|
    ensures r.Some? ==> r.value < n && issued(c, s[r.value])
    ensures r.None? ==> forall i :: 0 <= i < n ==> !issued(c, s[i])
  {
    if n == 0 then None else if issued(c, s[n - 1]) then Some(n - 1) else LastFrom(issued, c, s, n - 1)
  }

  /** Puts below s[k] the last certificate it issued, and so on down to the leaf. */
  function SortedBelow<C>(issued: Issued<C>, s: seq<C>, k: nat): (r: Option<seq<C>>)
    requires k < |s|
    decreases k
  {
    if k == 0 then Some(s)
    else
      match LastFrom(issued, s[k], s, k)
      case None => None
      case Some(p) => SortedBelow(issued, Swapped(s, k - 1, p), k - 1)
  }

  /** What sorting makes of certificates in a given order, if it succeeds. */
  function SortedChain<C>(issued: Issued<C>, s: seq<C>): Option<seq<C>> {
    match LastRoot(issued, s, |s|)
    case None => None
    case Some(p) => SortedBelow(issued, Swapped(s, |s| - 1, p), |s| - 1)
  }

  lemma SwappedKeeps<C>(s: seq<C>, i: nat, j: nat)
    requires i < |s| && j < |s|
    ensures multiset(Swapped(s, i, j)) == multiset(s)
  {
  }

  lemma SwappedAt<C>(s: seq<C>, i: nat, p: nat)
    requires p <= i < |s|
    ensures Swapped(s, i, p)[i] == s[p] && forall t :: i < t < |s| ==> Swapped(s, i, p)[t] == s[t]
  {
  }

  lemma ChainGrows<C>(issued: Issued<C>, s: seq<C>, s': seq<C>, k: nat)
    requires 0 < k < |s| == |s'| && IsChain(issued, s[k..]) && (forall t :: k <= t < |s| ==> s'[t] == s[t])
    requires issued(s[k], s'[k - 1])
    ensures IsChain(issued, s'[k - 1..])
  {
    var c, c' := s[k..], s'[k - 1..];
    assert forall i :: 0 < i < |c'| ==> c'[i] == c[i - 1];
  }

  /** A success is a chain of the same certificates, and keeps what was in place. */
  lemma {:induction false} SortedBelowIsChain<C>(issued: Issued<C>, s: seq<C>, k: nat)
    requires k < |s| && IsChain(issued, s[k..]) && SortedBelow(issued, s, k).Some?
    ensures var r := SortedBelow(issued, s, k).value;
      IsChain(issued, r) && multiset(r) == multiset(s) && |r| == |s| && r[k..] == s[k..]
    decreases k
  {
    hide IsChain, Swapped;
    if k == 0 {
      assert s[0..] == s;
    } else {
      var p := LastFrom(issued, s[k], s, k).value;
      var s' := Swapped(s, k - 1, p);
      SwappedKeeps(s, k - 1, p);
      SwappedAt(s, k - 1, p);
      ChainGrows(issued, s, s', k);
      SortedBelowIsChain(issued, s', k - 1);
      var r := SortedBelow(issued, s', k - 1).value;
      assert r[k..] == r[k - 1..][1..] && s'[k..] == s'[k - 1..][1..];
      assert s'[k..] == s[k..];
    }
  }

  /** A sorted chain is a chain of the given certificates. */
  lemma SortedIsChain<C>(issued: Issued<C>, s: seq<C>)
    requires SortedChain(issued, s).Some?
    ensures var r := SortedChain(issued, s).value; IsChain(issued, r) && multiset(r) == multiset(s)
  {
    hide Swapped;
    var p := LastRoot(issued, s, |s|).value;
    var s' := Swapped(s, |s| - 1, p);
    SwappedKeeps(s, |s| - 1, p);
    SwappedAt(s, |s| - 1, p);
    SortedBelowIsChain(issued, s', |s| - 1);
  }

  // Which chains are restored from every order -------------------------------------------------------

  /** The part from k on is already the end of the chain, the part before a shuffle of its start. */
  ghost predicate Placed<C>(s: seq<C>, chain: seq<C>, k: nat) {
    k <= |s| == |chain| && s[k..] == chain[k..] && multiset(s[..k]) == multiset(chain[..k])
  }

  /** One more certificate is in place. */
  lemma PlaceOne<C>(r: seq<C>, chain: seq<C>, k: nat)
    requires 0 < k <= |r| == |chain| && r[k..] == chain[k..] && r[k - 1] == chain[k - 1]
    requires multiset(r[..k]) == multiset(chain[..k])
    ensures Placed(r, chain, k - 1)
  {
    DropLast(r, k);
    DropLast(chain, k);
    Cancel(multiset(r[..k - 1]), multiset(chain[..k - 1]), multiset{r[k - 1]});
    assert r[k - 1..] == [r[k - 1]] + r[k..] && chain[k - 1..] == [chain[k - 1]] + chain[k..];
  }

  lemma DropLast<C>(s: seq<C>, k: nat)
    requires 0 < k <= |s|
    ensures multiset(s[..k]) == multiset(s[..k - 1]) + multiset{s[k - 1]}
  {
    assert s[..k] == s[..k - 1] + [s[k - 1]];
  }

  lemma SelfIssuedIsRoot<C>(issued: Issued<C>, s: seq<C>, chain: seq<C>, p: nat)
    requires IsLinear(issued, chain) && multiset(s) == multiset(chain) && p < |s| && issued(s[p], s[p])
    ensures |s| == |chain| && s[p] == chain[|s| - 1]
  {
    assert |multiset(s)| == |s| && |multiset(chain)| == |chain|;
    assert s[p] in multiset(chain);
    var t :| 0 <= t < |chain| && chain[t] == s[p];
    assert issued(chain[t], chain[t]);
  }

  lemma PlaceRoot<C>(issued: Issued<C>, s: seq<C>, chain: seq<C>, p: nat)
    requires IsLinear(issued, chain) && multiset(s) == multiset(chain) && p < |s| && issued(s[p], s[p])
    ensures |s| == |chain| && Placed(Swapped(s, |s| - 1, p), chain, |s| - 1)
  {
    hide IsLinear, Swapped, Placed;
    SelfIssuedIsRoot(issued, s, chain, p);
    var n := |s|;
    var r := Swapped(s, n - 1, p);
    SwappedKeeps(s, n - 1, p);
    SwappedAt(s, n - 1, p);
    assert r[..n] == r && chain[..n] == chain && r[n..] == chain[n..];
    PlaceOne(r, chain, n);
  }

  lemma Cancel<C>(a: multiset<C>, b: multiset<C>, c: multiset<C>)
    requires a + c == b + c
    ensures a == b
  {
    assert a == a + c - c && b == b + c - c;
  }

  lemma RootExists<C>(issued: Issued<C>, s: seq<C>, chain: seq<C>)
    requires IsLinear(issued, chain) && multiset(s) == multiset(chain)
    ensures exists p :: 0 <= p < |s| && issued(s[p], s[p])
  {
    var root := chain[|chain| - 1];
    assert root in multiset(s);
    var p :| 0 <= p < |s| && s[p] == root;
  }

  lemma NextExists<C>(issued: Issued<C>, s: seq<C>, chain: seq<C>, k: nat)
    requires IsLinear(issued, chain) && k > 0 && k < |s| && Placed(s, chain, k)
    ensures exists p :: 0 <= p < k && issued(s[k], s[p])
  {
    assert s[k] == s[k..][0] == chain[k];
    assert chain[k - 1] in multiset(chain[..k]);
    assert chain[k - 1] in multiset(s[..k]);
    var p :| 0 <= p < k && s[..k][p] == chain[k - 1];
    assert issued(s[k], s[p]);
  }

  lemma IssuedIsNext<C>(issued: Issued<C>, s: seq<C>, chain: seq<C>, k: nat, p: nat)
    requires IsLinear(issued, chain) && 0 < k < |s| && Placed(s, chain, k) && p < k && issued(s[k], s[p])
    ensures s[p] == chain[k - 1]
  {
    assert s[k] == s[k..][0] == chain[k];
    assert s[..k][p] in multiset(chain[..k]);
    var t :| 0 <= t < k && chain[..k][t] == s[p];
    assert issued(chain[k], chain[t]);
  }

  lemma SwappedPrefix<C>(s: seq<C>, k: nat, p: nat)
    requires p < k <= |s|
    ensures var r := Swapped(s, k - 1, p); multiset(r[..k]) == multiset(s[..k]) && r[k..] == s[k..]
  {
    SwappedKeeps(s[..k], k - 1, p);
    assert Swapped(s, k - 1, p)[..k] == Swapped(s[..k], k - 1, p);
  }

  lemma PlaceNext<C>(issued: Issued<C>, s: seq<C>, chain: seq<C>, k: nat, p: nat)
    requires IsLinear(issued, chain) && 0 < k < |s| && Placed(s, chain, k) && p < k && issued(s[k], s[p])
    ensures Placed(Swapped(s, k - 1, p), chain, k - 1)
  {
    hide IsLinear, Swapped;
    IssuedIsNext(issued, s, chain, k, p);
    SwappedPrefix(s, k, p);
    SwappedAt(s, k - 1, p);
    PlaceOne(Swapped(s, k - 1, p), chain, k);
  }

  lemma {:induction false} RestoredBelow<C>(issued: Issued<C>, s: seq<C>, chain: seq<C>, k: nat)
    requires IsLinear(issued, chain) && k < |s| && Placed(s, chain, k)
    ensures SortedBelow(issued, s, k) == Some(chain)
    decreases k
  {
    hide IsLinear, Swapped, Placed;
    if k == 0 {
      PlacedAll(s, chain);
    } else {
      NextExists(issued, s, chain, k);
      var p := LastFrom(issued, s[k], s, k).value;
      PlaceNext(issued, s, chain, k, p);
      RestoredBelow(issued, Swapped(s, k - 1, p), chain, k - 1);
    }
  }

  lemma PlacedAll<C>(s: seq<C>, chain: seq<C>)
    requires Placed(s, chain, 0)
    ensures s == chain
  {
    assert s[0..] == s && chain[0..] == chain;
  }

  /** A chain without detours is restored from every order of its certificates. */
  lemma LinearIsRestored<C>(issued: Issued<C>, s: seq<C>, chain: seq<C>)
    requires IsLinear(issued, chain) && multiset(s) == multiset(chain)
    ensures SortedChain(issued, s) == Some(chain)
  {
    hide IsLinear, Swapped, Placed;
    RootExists(issued, s, chain);
    var p := LastRoot(issued, s, |s|).value;
    PlaceRoot(issued, s, chain, p);
    RestoredBelow(issued, Swapped(s, |s| - 1, p), chain, |s| - 1);
  }

  ghost predicate RestoredFromEveryOrder<C(!new)>(issued: Issued<C>, chain: seq<C>) {
    forall s :: multiset(s) == multiset(chain) ==> SortedChain(issued, s) == Some(chain)
  }

  lemma SwappedSame<C>(s: seq<C>, i: nat)
    requires i < |s|
    ensures Swapped(s, i, i) == s
  {
  }

  /** Down to position k, an order that agrees with a chain is left as it is. */
  lemma {:induction false} Untouched<C>(issued: Issued<C>, s: seq<C>, chain: seq<C>, k: nat, top: nat)
    requires IsChain(issued, chain) && |s| == |chain| && k <= top < |s| && forall i :: k <= i <= top ==>
      s[i] == chain[i]
    ensures SortedBelow(issued, s, top) == SortedBelow(issued, s, k)
    decreases top
  {
    hide Swapped;
    if k < top {
      assert issued(s[top], s[top - 1]);
      SwappedSame(s, top - 1);
      Untouched(issued, s, chain, k, top - 1);
    }
  }

  /** A root that is last stays there. */
  lemma RootInPlace<C>(issued: Issued<C>, s: seq<C>)
    requires s != [] && issued(s[|s| - 1], s[|s| - 1])
    ensures SortedChain(issued, s) == SortedBelow(issued, s, |s| - 1)
  {
    hide SortedBelow, Swapped;
    SwappedSame(s, |s| - 1);
  }

  /** What is in place stays there. */
  lemma KeptInPlace<C>(issued: Issued<C>, s: seq<C>, k: nat, chain: seq<C>)
    requires k < |s| && IsChain(issued, s[k..]) && SortedBelow(issued, s, k) == Some(chain)
    ensures k < |chain| && chain[k] == s[k]
  {
    hide SortedBelow, IsChain;
    SortedBelowIsChain(issued, s, k);
    assert chain[k] == chain[k..][0] == s[k..][0] == s[k];
  }

  /** With a second kind of root, the order that has it last is not restored. */
  lemma OtherRoot<C>(issued: Issued<C>, chain: seq<C>, i: nat)
    requires IsChain(issued, chain) && i < |chain| && issued(chain[i], chain[i]) && chain[i] != chain[|chain| - 1]
    ensures multiset(Swapped(chain, |chain| - 1, i)) == multiset(chain)
    ensures SortedChain(issued, Swapped(chain, |chain| - 1, i)) != Some(chain)
  {
    hide SortedBelow, SortedChain, Swapped;
    var n := |chain| - 1;
    var s := Swapped(chain, n, i);
    SwappedKeeps(chain, n, i);
    SwappedAt(chain, n, i);
    RootInPlace(issued, s);
    assert s[n..] == [s[n]];
    if SortedBelow(issued, s, n) == Some(chain) {
      KeptInPlace(issued, s, n, chain);
    }
  }

  /** With a detour below position k, the order that has it next is not restored. */
  lemma Detour<C>(issued: Issued<C>, chain: seq<C>, k: nat, t: nat)
    requires IsChain(issued, chain) && t < k < |chain| && issued(chain[k], chain[t]) && chain[t] != chain[k - 1]
    ensures multiset(Swapped(chain, k - 1, t)) == multiset(chain)
    ensures SortedChain(issued, Swapped(chain, k - 1, t)) != Some(chain)
  {
    hide SortedBelow, SortedChain, Swapped;
    var s := Swapped(chain, k - 1, t);
    SwappedKeeps(chain, k - 1, t);
    SwappedAt(chain, k - 1, t);
    RootInPlace(issued, s);
    Untouched(issued, s, chain, k, |s| - 1);
    NextInPlace(issued, s, k);
    ChainEnd(issued, chain, s, k);
    if SortedBelow(issued, s, k - 1) == Some(chain) {
      KeptInPlace(issued, s, k - 1, chain);
    }
  }

  lemma NextInPlace<C>(issued: Issued<C>, s: seq<C>, k: nat)
    requires 0 < k < |s| && issued(s[k], s[k - 1])
    ensures SortedBelow(issued, s, k) == SortedBelow(issued, s, k - 1)
  {
    hide Swapped;
    SwappedSame(s, k - 1);
  }

  lemma ChainEnd<C>(issued: Issued<C>, chain: seq<C>, s: seq<C>, k: nat)
    requires IsChain(issued, chain) && 0 < k < |chain| == |s| && (forall i :: k <= i < |s| ==> s[i] == chain[i])
    requires issued(s[k], s[k - 1])
    ensures IsChain(issued, s[k - 1..])
  {
    var e := s[k - 1..];
    forall i | 0 <= i < |e| - 1 ensures issued(e[i + 1], e[i]) {
      if i > 0 {
        assert issued(chain[k + i], chain[k + i - 1]);
      }
    }
  }

  /** Exactly the chains without detours are restored from every order of their certificates. */
  lemma RestoredExactly<C(!new)>(issued: Issued<C>, chain: seq<C>)
    ensures RestoredFromEveryOrder(issued, chain) <==> IsLinear(issued, chain)
  {
    if IsLinear(issued, chain) {
      forall s | multiset(s) == multiset(chain) ensures SortedChain(issued, s) == Some(chain) {
        LinearIsRestored(issued, s, chain);
      }
    }
    if RestoredFromEveryOrder(issued, chain) {
      assert SortedChain(issued, chain) == Some(chain);
      SortedIsChain(issued, chain);
      hide SortedChain;
      forall i | 0 <= i < |chain| && issued(chain[i], chain[i]) ensures chain[i] == chain[|chain| - 1] {
        if chain[i] != chain[|chain| - 1] {
          OtherRoot(issued, chain, i);
        }
      }
      forall k, t | 0 <= t < k < |chain| && issued(chain[k], chain[t]) ensures chain[t] == chain[k - 1] {
        if chain[t] != chain[k - 1] {
          Detour(issued, chain, k, t);
        }
      }
    }
  }

  /** Otherwise the order decides: when a root issued both others and one of these issued the other, the
      search succeeds from one order and fails from another. */
  lemma OrderMatters(issued: Issued<nat>)
    requires forall i, j :: issued(i, j) <==> i == 2 || (i == 0 && j == 1)
    ensures multiset([0, 1, 2]) == multiset([1, 0, 2])
    ensures SortedChain(issued, [0, 1, 2]).None? && SortedChain(issued, [1, 0, 2]) == Some([1, 0, 2])
  {
    hide SortedBelow, SortedChain, Swapped;
    RootInPlace(issued, [0, 1, 2]);
    RootInPlace(issued, [1, 0, 2]);
    NextInPlace(issued, [0, 1, 2], 2);
    NextInPlace(issued, [1, 0, 2], 2);
    NextInPlace(issued, [1, 0, 2], 1);
    DeadEnd(issued, [0, 1, 2]);
    LeafReached(issued, [1, 0, 2]);
  }

  lemma DeadEnd<C>(issued: Issued<C>, s: seq<C>)
    requires |s| > 1 && !issued(s[1], s[0])
    ensures SortedBelow(issued, s, 1).None?
  {
  }

  lemma LeafReached<C>(issued: Issued<C>, s: seq<C>)
    requires s != []
    ensures SortedBelow(issued, s, 0) == Some(s)
  {
  }

  // The sorting loop -------------------------------------------------------------------------------

  method Swap<C>(a: array<C>, i: nat, j: nat)
    requires i < a.Length && j < a.Length
    modifies a
    ensures a[..] == Swapped(old(a[..]), i, j)
  {
    a[i], a[j] := a[j], a[i];
    assert a[..] == Swapped(old(a[..]), i, j);
  }

  /** The last self-issued certificate. */
  method LastSelfIssued<C>(issued: Issued<C>, certs: array<C>) returns (r: Option<nat>)
    ensures r == LastRoot(issued, certs[..], certs.Length)
    ensures r.Some? ==> r.value < certs.Length && issued(certs[r.value], certs[r.value])
    ensures r.Some? ==> forall i :: r.value < i < certs.Length ==> !issued(certs[i], certs[i])
    ensures r.None? ==> forall i :: 0 <= i < certs.Length ==> !issued(certs[i], certs[i])
  {
    var i := certs.Length;
    while i > 0
      invariant 0 <= i <= certs.Length && forall j :: i <= j < certs.Length ==> !issued(certs[j], certs[j])
      invariant LastRoot(issued, certs[..], i) == LastRoot(issued, certs[..], certs.Length)
    {
      i := i - 1;
      if issued(certs[i], certs[i]) {
        return Some(i);
      }
    }
    return None;
  }

  /** The last certificate before `curr` that `curr` issued. */
  method LastIssuedBy<C>(issued: Issued<C>, certs: array<C>, curr: nat) returns (r: Option<nat>)
    requires curr < certs.Length
    ensures r == LastFrom(issued, certs[curr], certs[..], curr)
    ensures r.Some? ==> r.value < curr && issued(certs[curr], certs[r.value])
    ensures r.Some? ==> forall i :: r.value < i < curr ==> !issued(certs[curr], certs[i])
    ensures r.None? ==> forall i :: 0 <= i < curr ==> !issued(certs[curr], certs[i])
  {
    var i := curr;
    while i > 0
      invariant 0 <= i <= curr && forall j :: i <= j < curr ==> !issued(certs[curr], certs[j])
      invariant LastFrom(issued, certs[curr], certs[..], i) == LastFrom(issued, certs[curr], certs[..], curr)
    {
      i := i - 1;
      if issued(certs[curr], certs[i]) {
        return Some(i);
      }
    }
    return None;
  }

  /** Sorts in place: succeeds iff the search down from the root does, with its result. By `SortedIsChain`
      that is a chain of the same certificates, by `RestoredExactly` the only one if it has no detours. */
  method Sort<C>(issued: Issued<C>, certs: array<C>) returns (r: Result<(), Error>)
    modifies certs
    ensures match SortedChain(issued, old(certs[..]))
            case Some(chain) => r == Ok(()) && certs[..] == chain
            case None => r == Err(InvalidChain)
  {
    hide Swapped, LastRoot, LastFrom;
    var rootPos := LastSelfIssued(issued, certs);
    if rootPos.None? {
      return Err(InvalidChain);
    }
    var endPos := certs.Length - 1;
    Swap(certs, endPos, rootPos.value);
    var curr := certs.Length - 1;
    while curr > 0
      invariant 0 <= curr < certs.Length
      invariant SortedChain(issued, old(certs[..])) == SortedBelow(issued, certs[..], curr)
    {
      var next := LastIssuedBy(issued, certs, curr);
      if next.None? {
        return Err(InvalidChain);
      }
      Swap(certs, curr - 1, next.value);
      curr := curr - 1;
    }
    return Ok(());
  }

  /** Builds a chain from certificates in any order. */
  method New<C>(issued: Issued<C>, maybeUnsorted: seq<C>) returns (r: Result<seq<C>, Error>)
    ensures maybeUnsorted == [] ==> r == Err(EmptyChain)
    ensures maybeUnsorted != [] ==>
      match SortedChain(issued, maybeUnsorted) case Some(chain) => r == Ok(chain) case None => r == Err(InvalidChain)
    ensures r.Ok? ==> IsChain(issued, r.value) && multiset(r.value) == multiset(maybeUnsorted)
  {
    hide IsChain, SortedChain;
    if maybeUnsorted == [] {
      return Err(EmptyChain);
    }
    var certs := new C[|maybeUnsorted|](i requires 0 <= i < |maybeUnsorted| => maybeUnsorted[i]);
    assert certs[..] == maybeUnsorted;
    var sorted := Sort(issued, certs);
    if sorted.Err? {
      return Err(sorted.error);
    }
    SortedIsChain(issued, maybeUnsorted);
    return Ok(certs[..]);
  }
}
