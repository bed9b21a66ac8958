/** The Prefix Tree: a search result opens a root to the counter of a key (prefix.rs). */
module Prefix {
  import opened Wrappers
  import opened Bits

  /** A byte string that should be a 32-byte value. */
  datatype Bytes<+H> = Hash(value: H) | WrongSize

  datatype PrefixProof<+H> = PrefixProof(counter: nat, proof: seq<Bytes<H>>)

  datatype MalformedProof = MalformedProof

  const KEY_LENGTH: nat := 32

  /** The tree's two hash functions: of a leaf (key, counter, position), and of a pair of children. */
  datatype PrefixHash<!H> = PrefixHash(leaf: (seq<nat>, nat, nat) -> H, parent: (H, H) -> H)

  ghost predicate BothCollisionFree<H(!new)>(hs: PrefixHash<H>) {
    && (forall a, b, c, d :: hs.parent(a, b) == hs.parent(c, d) ==> a == c && b == d)
    && (forall k, c, p, k', c', p' :: hs.leaf(k, c, p) == hs.leaf(k', c', p') ==> k == k' && c == c' && p == p')
  }

  /** The n-th bit of the key, most significant bit of each byte first. */
  predicate KeyBit(key: seq<nat>, n: nat)
    requires |key| == KEY_LENGTH && n < 8 * KEY_LENGTH
  {
    Shr(key[n / 8], 7 - n % 8) % 2 == 1
  }

  /** The value reached from a leaf's value after climbing past the given siblings. */
  function Climb<H>(hs: PrefixHash<H>, key: seq<nat>, value: H, proof: seq<Bytes<H>>): Result<H, MalformedProof>
    requires |key| == KEY_LENGTH && |proof| <= 8 * KEY_LENGTH
  {
    if proof == [] then Ok(value)
    else
      var i := |proof| - 1;
      match (Climb(hs, key, value, proof[..i]), proof[i])
      case (Ok(v), Hash(sibling)) =>
        Ok(if KeyBit(key, 8 * KEY_LENGTH - i - 1) then hs.parent(sibling, v) else hs.parent(v, sibling))
      case _ => Err(MalformedProof)
  }

  function EvaluateProof<H>(hs: PrefixHash<H>, key: seq<nat>, value: H, proof: seq<Bytes<H>>): Result<H, MalformedProof>
    requires |key| == KEY_LENGTH
  {
    if |proof| != 8 * KEY_LENGTH then Err(MalformedProof) else Climb(hs, key, value, proof)
  }

  function Opens<H>(hs: PrefixHash<H>, key: seq<nat>, pos: nat, res: PrefixProof<H>): Result<H, MalformedProof>
    requires |key| == KEY_LENGTH
  {
    EvaluateProof(hs, key, hs.leaf(key, res.counter, pos), res.proof)
  }

  lemma {:induction false} ClimbFails<H>(hs: PrefixHash<H>, key: seq<nat>, value: H, proof: seq<Bytes<H>>, i: nat)
    requires |key| == KEY_LENGTH && i < |proof| <= 8 * KEY_LENGTH && proof[i].WrongSize?
    ensures Climb(hs, key, value, proof).Err?
    decreases |proof|
  {
    if i < |proof| - 1 {
      ClimbFails(hs, key, value, proof[..|proof| - 1], i);
    }
  }

  method Evaluate<H>(hs: PrefixHash<H>, key: seq<nat>, pos: nat, res: PrefixProof<H>)
    returns (r: Result<H, MalformedProof>)
    requires |key| == KEY_LENGTH
    ensures r == Opens(hs, key, pos, res)
  {
    var proof := res.proof;
    if |proof| != 8 * KEY_LENGTH {
      return Err(MalformedProof);
    }
    var value := hs.leaf(key, res.counter, pos);
    for i := 0 to |proof|
      invariant Climb(hs, key, hs.leaf(key, res.counter, pos), proof[..i]) == Ok(value)
    {
      match proof[i] {
        case WrongSize =>
          ClimbFails(hs, key, hs.leaf(key, res.counter, pos), proof, i);
          return Err(MalformedProof);
        case Hash(sibling) =>
          var n := |proof| - i - 1;
          assert proof[..i + 1][..i] == proof[..i];
          value := if !KeyBit(key, n) then hs.parent(value, sibling) else hs.parent(sibling, value);
      }
    }
    assert proof[..|proof|] == proof;
    return Ok(value);
  }

  // Binding ------------------------------------------------------------------------------------------

  /** Two different pairs of children that hash alike. */
  ghost predicate ParentsCollide<H>(hs: PrefixHash<H>, a: H, b: H, c: H, d: H) {
    hs.parent(a, b) == hs.parent(c, d) && (a != c || b != d)
  }

  /** Two climbs come to the same value from different ones: a collision, in plain sight. */
  ghost predicate ClimbClash<H>(hs: PrefixHash<H>, key: seq<nat>, v: H, p: seq<Bytes<H>>, v': H, p': seq<Bytes<H>>)
    requires |key| == KEY_LENGTH && |p| == |p'| <= 8 * KEY_LENGTH
  {
    if p == [] then false
    else
      var i := |p| - 1;
      || ClimbClash(hs, key, v, p[..i], v', p'[..i])
      || match (Climb(hs, key, v, p[..i]), p[i], Climb(hs, key, v', p'[..i]), p'[i])
         case (Ok(a), Hash(s), Ok(b), Hash(t)) =>
           if KeyBit(key, 8 * KEY_LENGTH - i - 1) then ParentsCollide(hs, s, a, t, b)
           else ParentsCollide(hs, a, s, b, t)
         case _ => false
  }

  /** Two openings of a key at a position exhibit a collision. */
  ghost predicate OpeningClash<H>(hs: PrefixHash<H>, key: seq<nat>, pos: nat, res: PrefixProof<H>, res': PrefixProof<H>)
    requires |key| == KEY_LENGTH
  {
    && |res.proof| == |res'.proof| == 8 * KEY_LENGTH
    && var a, b := hs.leaf(key, res.counter, pos), hs.leaf(key, res'.counter, pos);
       (a == b && res.counter != res'.counter) || ClimbClash(hs, key, a, res.proof, b, res'.proof)
  }

  /** Climbing binds the start and all siblings. */
  lemma {:induction false} ClimbBinds<H>(hs: PrefixHash<H>, key: seq<nat>, v: H, p: seq<Bytes<H>>, v': H,
                                         p': seq<Bytes<H>>)
    requires |key| == KEY_LENGTH && |p| == |p'| <= 8 * KEY_LENGTH && !ClimbClash(hs, key, v, p, v', p')
    requires Climb(hs, key, v, p).Ok? && Climb(hs, key, v, p) == Climb(hs, key, v', p')
    ensures v == v' && p == p'
  {
    hide KeyBit;
    if p != [] {
      var i := |p| - 1;
      ClimbBinds(hs, key, v, p[..i], v', p'[..i]);
      assert p == p[..i] + [p[i]] && p' == p'[..i] + [p'[i]];
    }
  }

  /** A prefix root opens a key at a position to at most one counter, by at most one proof. */
  lemma OpeningIsBinding<H>(hs: PrefixHash<H>, key: seq<nat>, pos: nat, res: PrefixProof<H>, res': PrefixProof<H>)
    requires |key| == KEY_LENGTH && !OpeningClash(hs, key, pos, res, res')
    requires Opens(hs, key, pos, res).Ok? && Opens(hs, key, pos, res) == Opens(hs, key, pos, res')
    ensures res == res'
  {
    hide Climb, ClimbClash;
    ClimbBinds(hs, key, hs.leaf(key, res.counter, pos), res.proof, hs.leaf(key, res'.counter, pos), res'.proof);
  }

  lemma {:induction false} NoClimbClash<H(!new)>(hs: PrefixHash<H>, key: seq<nat>, v: H, p: seq<Bytes<H>>, v': H,
                                                 p': seq<Bytes<H>>)
    requires BothCollisionFree(hs) && |key| == KEY_LENGTH && |p| == |p'| <= 8 * KEY_LENGTH
    ensures !ClimbClash(hs, key, v, p, v', p')
  {
    hide Climb, KeyBit;
    if p != [] {
      NoClimbClash(hs, key, v, p[..|p| - 1], v', p'[..|p| - 1]);
    }
  }

  /** Collision-free hash functions never clash. */
  lemma NoOpeningClash<H(!new)>(hs: PrefixHash<H>, key: seq<nat>, pos: nat, res: PrefixProof<H>, res': PrefixProof<H>)
    requires BothCollisionFree(hs) && |key| == KEY_LENGTH
    ensures !OpeningClash(hs, key, pos, res, res')
  {
    hide ClimbClash;
    if |res.proof| == |res'.proof| == 8 * KEY_LENGTH {
      NoClimbClash(hs, key, hs.leaf(key, res.counter, pos), res.proof, hs.leaf(key, res'.counter, pos), res'.proof);
    }
  }
}
