/** Increasing and sorted sequences of numbers. */
module Sequences {

  ghost predicate Increasing(s: seq<nat>) {
    forall i, j :: 0 <= i < j < |s| ==> s[i] < s[j]
  }

  ghost predicate Sorted(s: seq<nat>) {
    forall i, j :: 0 <= i < j < |s| ==> s[i] <= s[j]
  }

  // Insertion sort by a key ------------------------------------------------------------

  function InsertBy<T>(key: T -> nat, x: T, s: seq<T>): seq<T> {
    if s == [] || key(x) <= key(s[0]) then [x] + s else [s[0]] + InsertBy(key, x, s[1..])
  }

  /** Elements with equal keys keep their order. */
  function SortBy<T>(key: T -> nat, s: seq<T>): seq<T> {
    if s == [] then [] else InsertBy(key, s[0], SortBy(key, s[1..]))
  }

  ghost predicate OrderedBy<T>(key: T -> nat, s: seq<T>) {
    forall i, j :: 0 <= i < j < |s| ==> key(s[i]) <= key(s[j])
  }

  lemma {:induction false} InsertByKeeps<T>(key: T -> nat, x: T, s: seq<T>)
    ensures multiset(InsertBy(key, x, s)) == multiset(s) + multiset{x}
  {
    if !(s == [] || key(x) <= key(s[0])) {
      InsertByKeeps(key, x, s[1..]);
      assert s == [s[0]] + s[1..];
    }
  }

  lemma PrependOrdered<T>(key: T -> nat, x: T, s: seq<T>)
    requires OrderedBy(key, s) && forall y :: y in s ==> key(x) <= key(y)
    ensures OrderedBy(key, [x] + s)
  {
    var t := [x] + s;
    forall i, j | 0 <= i < j < |t| ensures key(t[i]) <= key(t[j]) {
      assert t[j] == s[j - 1];
      assert s[j - 1] in s;
    }
  }

  lemma FirstKeyIsLeast<T>(key: T -> nat, s: seq<T>, y: T)
    requires OrderedBy(key, s) && y in s
    ensures key(s[0]) <= key(y)
  {
    var i :| 0 <= i < |s| && s[i] == y;
  }

  lemma {:induction false} InsertByOrders<T>(key: T -> nat, x: T, s: seq<T>)
    requires OrderedBy(key, s)
    ensures OrderedBy(key, InsertBy(key, x, s))
  {
    if s == [] || key(x) <= key(s[0]) {
      forall y | y in s ensures key(x) <= key(y) {
        FirstKeyIsLeast(key, s, y);
      }
      PrependOrdered(key, x, s);
    } else {
      InsertByOrders(key, x, s[1..]);
      InsertByKeeps(key, x, s[1..]);
      hide OrderedBy;
      var t := InsertBy(key, x, s[1..]);
      forall y | y in t ensures key(s[0]) <= key(y) {
        assert y in multiset(t);
        if y != x {
          assert y in s[1..];
          FirstKeyIsLeast(key, s, y);
        }
      }
      PrependOrdered(key, s[0], t);
    }
  }

  lemma {:induction false} SortByOrders<T>(key: T -> nat, s: seq<T>)
    ensures OrderedBy(key, SortBy(key, s)) && multiset(SortBy(key, s)) == multiset(s)
  {
    if s != [] {
      SortByOrders(key, s[1..]);
      InsertByOrders(key, s[0], SortBy(key, s[1..]));
      InsertByKeeps(key, s[0], SortBy(key, s[1..]));
      assert s == [s[0]] + s[1..];
    }
  }

  // Numbers ----------------------------------------------------------------------------

  function Sort(s: seq<nat>): seq<nat> {
    SortBy((x: nat) => x, s)
  }

  lemma SortSorts(s: seq<nat>)
    ensures Sorted(Sort(s)) && multiset(Sort(s)) == multiset(s)
  {
    var key := (x: nat) => x;
    SortByOrders(key, s);
    var t := SortBy(key, s);
    assert forall i, j :: 0 <= i < j < |t| ==> key(t[i]) <= key(t[j]);
  }

  lemma PrependSorted(x: nat, s: seq<nat>)
    requires Sorted(s) && forall y :: y in s ==> x <= y
    ensures Sorted([x] + s)
  {
    var t := [x] + s;
    forall i, j | 0 <= i < j < |t| ensures t[i] <= t[j] {
      assert t[j] == s[j - 1];
      assert s[j - 1] in s;
    }
  }

  lemma PrependIncreasing(x: nat, s: seq<nat>)
    requires Increasing(s) && forall y :: y in s ==> x < y
    ensures Increasing([x] + s)
  {
    var t := [x] + s;
    forall i, j | 0 <= i < j < |t| ensures t[i] < t[j] {
      assert t[j] == s[j - 1];
      assert s[j - 1] in s;
    }
  }

  lemma FirstIsLeast(s: seq<nat>, y: nat)
    requires Sorted(s) && y in s
    ensures s[0] <= y
  {
  }

  lemma SameFirst(s: seq<nat>, t: seq<nat>)
    requires Sorted(s) && Sorted(t) && multiset(s) == multiset(t) && s != []
    ensures t != [] && s[0] == t[0]
  {
    assert s[0] in multiset(t);
    assert t[0] in multiset(s);
  }

  lemma RestOf(s: seq<nat>)
    requires s != []
    ensures multiset(s[1..]) == multiset(s) - multiset{s[0]}
  {
    assert s == [s[0]] + s[1..];
  }

  /** A sorted sequence is determined by its elements. */
  lemma {:induction false} SortedUnique(s: seq<nat>, t: seq<nat>)
    requires Sorted(s) && Sorted(t) && multiset(s) == multiset(t)
    ensures s == t
  {
    if s == [] {
      assert |multiset(t)| == 0;
    } else {
      SameFirst(s, t);
      RestOf(s);
      RestOf(t);
      SortedUnique(s[1..], t[1..]);
      assert s == [s[0]] + s[1..] == [t[0]] + t[1..];
    }
  }

  lemma IncreasingIsSorted(s: seq<nat>)
    requires Increasing(s)
    ensures Sorted(s)
  {
  }

  lemma SortOfIncreasing(s: seq<nat>)
    requires Increasing(s)
    ensures Sort(s) == s
  {
    SortSorts(s);
    SortedUnique(Sort(s), s);
  }

  // Merging -----------------------------------------------------------------------

  /** The merge of two sorted lists of keys. */
  function Merge(a: seq<nat>, b: seq<nat>): seq<nat> {
    if a == [] then b else if b == [] then a
    else if a[0] < b[0] then [a[0]] + Merge(a[1..], b) else [b[0]] + Merge(a, b[1..])
  }

  /** Values attached to the keys, in the order of the merged keys. */
  function MergeValues<T>(a: seq<nat>, b: seq<nat>, va: seq<T>, vb: seq<T>): (vs: seq<T>)
    requires |va| == |a| && |vb| == |b|
    ensures |vs| == |Merge(a, b)|
    decreases |a| + |b|
  {
    if a == [] then vb else if b == [] then va
    else if a[0] < b[0] then [va[0]] + MergeValues(a[1..], b, va[1..], vb)
    else [vb[0]] + MergeValues(a, b[1..], va, vb[1..])
  }

  lemma {:induction false} MergeKeeps(a: seq<nat>, b: seq<nat>)
    ensures multiset(Merge(a, b)) == multiset(a) + multiset(b)
    decreases |a| + |b|
  {
    if a != [] && b != [] {
      assert a == [a[0]] + a[1..] && b == [b[0]] + b[1..];
      if a[0] < b[0] {
        MergeKeeps(a[1..], b);
      } else {
        MergeKeeps(a, b[1..]);
      }
    }
  }

  lemma MergeFrom(a: seq<nat>, b: seq<nat>, a': seq<nat>, b': seq<nat>, y: nat)
    requires a != [] && b != [] && (a', b') in {(a[1..], b), (a, b[1..])} && y in Merge(a', b')
    ensures y in a || y in b
  {
    MergeKeeps(a', b');
    assert y in multiset(Merge(a', b'));
    assert y in a' || y in b';
  }

  lemma {:induction false} MergeSorts(a: seq<nat>, b: seq<nat>)
    requires Sorted(a) && Sorted(b)
    ensures Sorted(Merge(a, b))
    decreases |a| + |b|
  {
    if a != [] && b != [] {
      var (x, a', b') := if a[0] < b[0] then (a[0], a[1..], b) else (b[0], a, b[1..]);
      MergeSorts(a', b');
      var m := Merge(a', b');
      forall y | y in m ensures x <= y {
        MergeFrom(a, b, a', b', y);
        if y in a { FirstIsLeast(a, y); } else { FirstIsLeast(b, y); }
      }
      PrependSorted(x, m);
    }
  }

  /** Different values never merge to the same list. */
  lemma {:induction false} MergeValuesInjective<T>(a: seq<nat>, b: seq<nat>, va: seq<T>, vb: seq<T>, wa: seq<T>,
                                                   wb: seq<T>)
    requires |va| == |wa| == |a| && |vb| == |wb| == |b|
    requires MergeValues(a, b, va, vb) == MergeValues(a, b, wa, wb)
    ensures va == wa && vb == wb
    decreases |a| + |b|
  {
    var v, w := MergeValues(a, b, va, vb), MergeValues(a, b, wa, wb);
    if a != [] && b != [] {
      if a[0] < b[0] {
        assert v[1..] == MergeValues(a[1..], b, va[1..], vb) && w[1..] == MergeValues(a[1..], b, wa[1..], wb);
        MergeValuesInjective(a[1..], b, va[1..], vb, wa[1..], wb);
        assert va == [v[0]] + va[1..] && wa == [w[0]] + wa[1..];
      } else {
        assert v[1..] == MergeValues(a, b[1..], va, vb[1..]) && w[1..] == MergeValues(a, b[1..], wa, wb[1..]);
        MergeValuesInjective(a, b[1..], va, vb[1..], wa, wb[1..]);
        assert vb == [v[0]] + vb[1..] && wb == [w[0]] + wb[1..];
      }
    }
  }

  lemma {:induction false} IncreasingSameElements(s: seq<nat>, t: seq<nat>)
    requires Increasing(s) && Increasing(t) && forall x :: x in s <==> x in t
    ensures s == t
  {
    assert t != [] ==> t[0] in t;
    if s != [] {
      assert s[0] in s && s[0] in t;
      assert t[0] in t && t[0] in s;
      assert s[0] == t[0];
      SameRest(s, t);
      IncreasingSameElements(s[1..], t[1..]);
      assert s == [s[0]] + s[1..] && t == [t[0]] + t[1..];
    }
  }

  lemma SameRest(s: seq<nat>, t: seq<nat>)
    requires Increasing(s) && Increasing(t) && (forall x :: x in s <==> x in t) && s != [] && t != [] && s[0] == t[0]
    ensures forall x :: x in s[1..] <==> x in t[1..]
  {
    forall x ensures x in s[1..] <==> x in s && x != s[0] {
      assert s == [s[0]] + s[1..];
    }
    forall x ensures x in t[1..] <==> x in t && x != t[0] {
      assert t == [t[0]] + t[1..];
    }
  }
}
