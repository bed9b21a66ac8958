/** The Prefix Tree that a search result opens, from its root down (prefix.rs): a binary tree of depth 256
    over all keys, read as 256-bit big-endian numbers. */
module PrefixTree {
  import opened Wrappers
  import opened Bits
  import opened Prefix

  /** The key as one number, most significant byte first. */
  function KeyNumber(key: seq<nat>): nat {
    if key == [] then 0 else 256 * KeyNumber(key[..|key| - 1]) + key[|key| - 1]
  }

  /** The tree's content: leaf hashes by key number, and what stands for subtrees without any. */
  datatype Content<!H> = Content(leaves: map<nat, H>, empty: (nat, nat) -> H)

  /** Some key lies below the j-th node of height k. */
  ghost predicate Occupied<H>(t: Content<H>, k: nat, j: nat) {
    exists x :: x in t.leaves && Shr(x, k) == j
  }

  /** The hash of the j-th node of height k: its left child has the smaller numbers and comes first. */
  ghost function NodeHash<H>(hs: PrefixHash<H>, t: Content<H>, k: nat, j: nat): H
    decreases k
  {
    if !Occupied(t, k, j) then t.empty(k, j)
    else if k == 0 then t.leaves[j]
    else hs.parent(NodeHash(hs, t, k - 1, 2 * j), NodeHash(hs, t, k - 1, 2 * j + 1))
  }

  /** The hash of the whole tree. */
  ghost function TreeRoot<H>(hs: PrefixHash<H>, t: Content<H>): H {
    NodeHash(hs, t, 256, 0)
  }

  /** The siblings on the way from a number's leaf up to the node of height n. */
  ghost function Siblings<H>(hs: PrefixHash<H>, t: Content<H>, x: nat, n: nat): (s: seq<Bytes<H>>)
    ensures |s| == n
    ensures forall i :: 0 <= i < n ==>
      s[i] == Hash(NodeHash(hs, t, i, if Shr(x, i) % 2 == 0 then Shr(x, i) + 1 else Shr(x, i) - 1))
  {
    seq(n, (i: nat) => Hash(NodeHash(hs, t, i, if Shr(x, i) % 2 == 0 then Shr(x, i) + 1 else Shr(x, i) - 1)))
  }

  // Bits of a key -----------------------------------------------------------------------------------

  /** Below its e lowest bits, c consists of the bits of a. */
  lemma {:induction false} ShrMixed(a: nat, b: nat, e: nat, c: nat, i: nat)
    requires b < Pow2(e) && c == a * Pow2(e) + b
    ensures i >= e ==> Shr(c, i) == Shr(a, i - e)
    ensures i < e ==> Shr(c, i) % 2 == Shr(b, i) % 2
    decreases i
  {
    if e > 0 {
      DoubleProduct(a, Pow2(e - 1));
      var p := a * Pow2(e - 1);
      assert c == 2 * p + b;
      if i > 0 {
        assert c / 2 == p + b / 2;
        ShrMixed(a, b / 2, e - 1, c / 2, i - 1);
      }
    }
  }

  lemma ShrByte(a: nat, b: nat, i: nat)
    requires b < 256
    ensures i >= 8 ==> Shr(256 * a + b, i) == Shr(a, i - 8)
    ensures i < 8 ==> Shr(256 * a + b, i) % 2 == Shr(b, i) % 2
  {
    assert Pow2(8) == 256 by { Pow8(); }
    ShrMixed(a, b, 8, 256 * a + b, i);
  }

  lemma Pow8()
    ensures Pow2(8) == 256
  {
    assert Pow2(4) == 16;
    assert Pow2(8) == 16 * Pow2(4);
  }

  lemma {:induction false} ShrNext(x: nat, k: nat)
    ensures Shr(x, k + 1) == Shr(x, k) / 2
    decreases k
  {
    if k > 0 {
      ShrNext(x / 2, k - 1);
    }
  }

  /** Bit i of the key's number, counted from the least significant one. */
  lemma {:induction false} NumberBit(key: seq<nat>, i: nat)
    requires (forall j :: 0 <= j < |key| ==> key[j] < 256) && i < 8 * |key|
    ensures Shr(KeyNumber(key), i) % 2 == Shr(key[|key| - 1 - i / 8], i % 8) % 2
    decreases |key|
  {
    hide Shr;
    var m := |key| - 1;
    ShrByte(KeyNumber(key[..m]), key[m], i);
    if i >= 8 {
      NumberBit(key[..m], i - 8);
      assert (i - 8) / 8 == i / 8 - 1 && (i - 8) % 8 == i % 8;
    }
  }

  lemma {:induction false} NumberBound(key: seq<nat>)
    requires forall j :: 0 <= j < |key| ==> key[j] < 256
    ensures Shr(KeyNumber(key), 8 * |key|) == 0
    decreases |key|
  {
    if key != [] {
      var m := |key| - 1;
      hide Shr;
      ShrByte(KeyNumber(key[..m]), key[m], 8 * |key|);
      NumberBound(key[..m]);
    }
  }

  ghost predicate IsKey(key: seq<nat>) {
    |key| == 32 && forall j :: 0 <= j < |key| ==> key[j] < 256
  }

  /** Bit n of the key, counted from the most significant one, is a bit of its number. */
  lemma KeyBitIs(key: seq<nat>, i: nat)
    requires IsKey(key) && i < 256
    ensures KeyBit(key, 255 - i) <==> Shr(KeyNumber(key), i) % 2 == 1
  {
    hide Shr, KeyNumber;
    NumberBit(key, i);
    var n := 255 - i;
    assert n / 8 == 31 - i / 8 && 7 - n % 8 == i % 8;
  }

  function Bit(key: seq<nat>, n: nat): nat
    requires |key| == KEY_LENGTH && n < 8 * KEY_LENGTH
  {
    if KeyBit(key, n) then 1 else 0
  }

  lemma BitOfByte(key: seq<nat>, i: nat, j: nat)
    requires IsKey(key) && i < 32 && j < 8
    ensures Bit(key, 8 * i + j) == Shr(key[i], 7 - j) % 2
  {
    hide Shr;
    assert (8 * i + j) / 8 == i && (8 * i + j) % 8 == j;
  }

  /** The bits of a byte, most significant first, make up the byte. */
  lemma ByteOfBits(key: seq<nat>, i: nat)
    requires IsKey(key) && i < 32
    ensures key[i] == 128 * Bit(key, 8 * i) + 64 * Bit(key, 8 * i + 1) + 32 * Bit(key, 8 * i + 2)
                      + 16 * Bit(key, 8 * i + 3) + 8 * Bit(key, 8 * i + 4) + 4 * Bit(key, 8 * i + 5)
                      + 2 * Bit(key, 8 * i + 6) + Bit(key, 8 * i + 7)
  {
    hide Bit, Shr;
    BitOfByte(key, i, 0);
    BitOfByte(key, i, 1);
    BitOfByte(key, i, 2);
    BitOfByte(key, i, 3);
    BitOfByte(key, i, 4);
    BitOfByte(key, i, 5);
    BitOfByte(key, i, 6);
    BitOfByte(key, i, 7);
    EightBits(key[i]);
  }

  lemma EightBits(b: nat)
    requires b < 256
    ensures b == 128 * (Shr(b, 7) % 2) + 64 * (Shr(b, 6) % 2) + 32 * (Shr(b, 5) % 2) + 16 * (Shr(b, 4) % 2)
                 + 8 * (Shr(b, 3) % 2) + 4 * (Shr(b, 2) % 2) + 2 * (Shr(b, 1) % 2) + Shr(b, 0) % 2
  {
    hide Shr;
    FourBits(b);
    FourBits(Shr(b, 4));
    ShrTwice(b, 4, 0);
    ShrTwice(b, 4, 1);
    ShrTwice(b, 4, 2);
    ShrTwice(b, 4, 3);
    NoHighBits(b);
  }

  lemma NoHighBits(b: nat)
    requires b < 256
    ensures Shr(b, 8) == 0 && Shr(Shr(b, 4), 4) == 0
  {
    ShrNext(b, 4);
    ShrTwice(b, 4, 4);
    ShrByte(0, b, 8);
  }

  lemma FourBits(b: nat)
    ensures b == 16 * Shr(b, 4) + 8 * (Shr(b, 3) % 2) + 4 * (Shr(b, 2) % 2) + 2 * (Shr(b, 1) % 2) + Shr(b, 0) % 2
  {
    ShrNext(b, 0);
    ShrNext(b, 1);
    ShrNext(b, 2);
    ShrNext(b, 3);
  }

  lemma {:induction false} ShrTwice(b: nat, i: nat, j: nat)
    ensures Shr(Shr(b, i), j) == Shr(b, i + j)
    decreases i
  {
    if i > 0 {
      ShrTwice(b / 2, i - 1, j);
    }
  }

  // Opening --------------------------------------------------------------------------------------------

  lemma LeafHash<H>(hs: PrefixHash<H>, t: Content<H>, x: nat)
    requires x in t.leaves
    ensures NodeHash(hs, t, 0, Shr(x, 0)) == t.leaves[x]
  {
    assert Occupied(t, 0, Shr(x, 0));
  }

  lemma ParentHash<H>(hs: PrefixHash<H>, t: Content<H>, x: nat, i: nat)
    requires x in t.leaves
    ensures var j := Shr(x, i);
      NodeHash(hs, t, i + 1, Shr(x, i + 1)) ==
      if j % 2 == 0 then hs.parent(NodeHash(hs, t, i, j), NodeHash(hs, t, i, j + 1))
      else hs.parent(NodeHash(hs, t, i, j - 1), NodeHash(hs, t, i, j))
  {
    hide Shr;
    assert Occupied(t, i + 1, Shr(x, i + 1));
    ShrNext(x, i);
  }

  /** Climbing from a key's leaf past the siblings on its path reaches the nodes above it. */
  lemma {:induction false} PathClimbs<H>(hs: PrefixHash<H>, t: Content<H>, key: seq<nat>, i: nat)
    requires IsKey(key) && KeyNumber(key) in t.leaves && i <= 256
    ensures var x := KeyNumber(key);
      Climb(hs, key, t.leaves[x], Siblings(hs, t, x, i)) == Ok(NodeHash(hs, t, i, Shr(x, i)))
    decreases i
  {
    hide KeyNumber, KeyBit, NodeHash, Shr;
    var x := KeyNumber(key);
    if i == 0 {
      LeafHash(hs, t, x);
    } else {
      PathClimbs(hs, t, key, i - 1);
      assert Siblings(hs, t, x, i)[..i - 1] == Siblings(hs, t, x, i - 1);
      KeyBitIs(key, i - 1);
      ParentHash(hs, t, x, i - 1);
    }
  }

  /** A prefix tree's root opens every key in it to its counter and position, by the siblings on its path. */
  lemma TreeOpens<H>(hs: PrefixHash<H>, t: Content<H>, key: seq<nat>, counter: nat, pos: nat)
    requires IsKey(key) && KeyNumber(key) in t.leaves && t.leaves[KeyNumber(key)] == hs.leaf(key, counter, pos)
    ensures Opens(hs, key, pos, PrefixProof(counter, Siblings(hs, t, KeyNumber(key), 256))) == Ok(TreeRoot(hs, t))
  {
    hide KeyNumber, Climb, NodeHash;
    PathClimbs(hs, t, key, 256);
    NumberBound(key);
  }
}
