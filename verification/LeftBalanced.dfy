/** Navigation of the flat in-order tree shared by the Log Tree and the Implicit Binary Search Tree
    (left_balanced.rs). The node functions are the source's bit expressions; the lemmas give their
    meaning, first in coordinates (level, index in level) and then as position intervals. */
module LeftBalanced {
  import opened Bits

  predicate IsLeaf(x: nat) {
    x % 2 == 0
  }

  function Level(x: nat): nat {
    TrailingOnes(x)
  }

  function LeftStep(x: nat): nat
    requires Level(x) > 0
  {
    Xor(x, Shl(1, Level(x) - 1))
  }

  function RightStep(x: nat): nat
    requires Level(x) > 0
  {
    Xor(x, Shl(3, Level(x) - 1))
  }

  function ParentStep(x: nat): nat {
    var k := Level(x);
    var b := Shr(x, k + 1) % 2;
    Xor(Or(x, Shl(1, k)), Shl(b, k + 1))
  }

  // Coordinates ------------------------------------------------------------

  /** The position of the j-th node (from the left) of level k. */
  function Id(k: nat, j: nat): (x: nat) {
    if k == 0 then 2 * j else 2 * Id(k - 1, j) + 1
  }

  /** The index of position x inside its level. */
  function Index(x: nat): nat {
    if x % 2 == 0 then x / 2 else Index(x / 2)
  }

  /** The first leaf (counting leaves only) below the node (k, j): j * 2^k. */
  function Start(k: nat, j: nat): nat
    decreases k
  {
    if k == 0 then j else Start(k - 1, 2 * j)
  }

  /** Every position is exactly one node (k, j). */
  lemma {:induction false} Coordinates(x: nat)
    ensures x == Id(Level(x), Index(x))
  {
    if x % 2 == 1 {
      Coordinates(x / 2);
    }
  }

  lemma {:induction false} LevelOfId(k: nat, j: nat)
    ensures Level(Id(k, j)) == k
    ensures Index(Id(k, j)) == j
  {
    if k > 0 {
      LevelOfId(k - 1, j);
    }
  }

  lemma {:induction false} StartDoubles(k: nat, j: nat)
    ensures Start(k + 1, j) == 2 * Start(k, j)
    decreases k
  {
    if k > 0 {
      StartDoubles(k - 1, 2 * j);
    }
  }

  lemma {:induction false} StartIsMultiple(k: nat, j: nat)
    ensures Start(k, j) == j * Pow2(k)
    decreases k
  {
    if k > 0 {
      StartIsMultiple(k - 1, 2 * j);
      DoubleProduct(j, Pow2(k - 1));
    }
  }

  lemma {:induction false} StartNext(k: nat, j: nat)
    ensures Start(k, j + 1) == Start(k, j) + Pow2(k)
    decreases k
  {
    if k > 0 {
      StartNext(k - 1, 2 * j);
      StartNext(k - 1, 2 * j + 1);
    }
  }

  lemma {:induction false} StartMono(k: nat, i: nat, j: nat)
    requires i < j
    ensures Start(k, i) + Pow2(k) <= Start(k, j)
    decreases j
  {
    StartNext(k, j - 1);
    if i < j - 1 {
      StartMono(k, i, j - 1);
    }
  }

  /** A node sits in the middle of the leaves below it. */
  lemma {:induction false} IdIsMiddle(k: nat, j: nat)
    ensures Id(k, j) == 2 * Start(k, j) + Pow2(k) - 1
    ensures k > 0 ==> Id(k, j) == 2 * Start(k - 1, 2 * j + 1) - 1
  {
    if k > 0 {
      IdIsMiddle(k - 1, j);
      StartDoubles(k - 1, j);
      StartNext(k - 1, 2 * j);
    }
  }

  // The step functions in coordinates --------------------------------------

  lemma {:induction false} ChildSteps(k: nat, j: nat)
    ensures Level(Id(k + 1, j)) == k + 1
    ensures LeftStep(Id(k + 1, j)) == Id(k, 2 * j)
    ensures RightStep(Id(k + 1, j)) == Id(k, 2 * j + 1)
  {
    LevelOfId(k + 1, j);
    if k == 0 {
      LowestSteps(j);
    } else {
      hide Level, LeftStep, RightStep;
      LevelOfId(k, j);
      ChildSteps(k - 1, j);
      StepsUp(Id(k, j));
    }
  }

  lemma LowestSteps(j: nat)
    ensures Level(Id(1, j)) == 1 && LeftStep(Id(1, j)) == Id(0, 2 * j) && RightStep(Id(1, j)) == Id(0, 2 * j + 1)
  {
    LevelOfId(1, j);
    hide Level, Xor;
    assert Id(1, j) == 4 * j + 1;
    XorLowest(j);
  }

  lemma StepsUp(y: nat)
    requires Level(y) > 0
    ensures Level(2 * y + 1) == Level(y) + 1
    ensures LeftStep(2 * y + 1) == 2 * LeftStep(y) + 1 && RightStep(2 * y + 1) == 2 * RightStep(y) + 1
  {
    LevelUp(y);
    hide Level, Xor;
    var k := Level(y);
    assert Shl(1, k) == 2 * Shl(1, k - 1) && Shl(3, k) == 2 * Shl(3, k - 1);
    XorDigits(y, 1, Shl(1, k - 1), 0);
    XorDigits(y, 1, Shl(3, k - 1), 0);
  }

  lemma LevelUp(y: nat)
    ensures Level(2 * y + 1) == Level(y) + 1
  {
  }

  lemma XorLowest(j: nat)
    ensures Xor(4 * j + 1, 1) == 4 * j && Xor(4 * j + 1, 3) == 4 * j + 2
  {
    hide Xor;
    XorDigits(2 * j, 1, 0, 1);
    XorDigits(2 * j, 1, 1, 1);
    XorZero(2 * j);
    XorDigits(j, 0, 0, 1);
    XorZero(j);
  }

  lemma {:induction false} ParentStepAt(k: nat, j: nat)
    ensures ParentStep(Id(k, j)) == Id(k + 1, j / 2)
  {
    LevelOfId(k, j);
    if k == 0 {
      LeafParent(j);
    } else {
      ParentStepAt(k - 1, j);
      LevelOfId(k - 1, j);
      ParentStepUp(Id(k - 1, j));
    }
  }

  lemma LeafParent(j: nat)
    ensures ParentStep(2 * j) == Id(1, j / 2)
  {
    hide Xor, Or;
    var b := j % 2;
    OrDigits(j, 0, 0, 1);
    OrZero(j);
    XorDigits(j, 1, b, 0);
    XorDigits(j / 2, b, 0, b);
    XorZero(j / 2);
    assert Shr(2 * j, 1) == Shr(j, 0);
    assert Id(1, j / 2) == 2 * Id(0, j / 2) + 1;
  }

  lemma ParentStepUp(y: nat)
    ensures ParentStep(2 * y + 1) == 2 * ParentStep(y) + 1
  {
    hide Level, Xor, Or;
    LevelUp(y);
    var k := Level(y);
    assert Shr(2 * y + 1, k + 2) == Shr(y, k + 1);
    var b := Shr(y, k + 1) % 2;
    OrDigits(y, 1, Shl(1, k), 0);
    XorDigits(Or(y, Shl(1, k)), 1, Shl(b, k + 1), 0);
  }

  // Subtrees as intervals of positions --------------------------------------

  /** First position of x's subtree. */
  function Lo(x: nat): (r: nat)
    ensures r <= x
  {
    if x % 2 == 0 then x else 2 * Lo(x / 2)
  }

  /** Last position of x's subtree. */
  function Hi(x: nat): (r: nat)
    ensures r >= x
  {
    if x % 2 == 0 then x else 2 * Hi(x / 2) + 2
  }

  ghost predicate InSubtree(y: nat, x: nat) {
    Lo(x) <= y <= Hi(x)
  }

  lemma {:induction false} IntervalWidth(x: nat)
    ensures Lo(x) == x - (Pow2(Level(x)) - 1)
    ensures Hi(x) == x + (Pow2(Level(x)) - 1)
  {
    if x % 2 == 1 {
      IntervalWidth(x / 2);
    }
  }

  lemma IntervalOfId(k: nat, j: nat)
    ensures Lo(Id(k, j)) == 2 * Start(k, j)
    ensures Hi(Id(k, j)) == 2 * Start(k, j + 1) - 2
  {
    LevelOfId(k, j);
    IntervalWidth(Id(k, j));
    IdIsMiddle(k, j);
    StartNext(k, j);
  }

  lemma ChildIntervals(k: nat, j: nat)
    ensures var x, l, r := Id(k + 1, j), Id(k, 2 * j), Id(k, 2 * j + 1);
      && l == x - Pow2(k) && r == x + Pow2(k)
      && Lo(l) == Lo(x) && Hi(l) == x - 1
      && Lo(r) == x + 1 && Hi(r) == Hi(x)
  {
    hide Id, Lo, Hi, Pow2;
    IdIsMiddle(k + 1, j);
    IdIsMiddle(k, 2 * j);
    IdIsMiddle(k, 2 * j + 1);
    StartNext(k, 2 * j);
    StartNext(k, 2 * j + 1);
    IntervalOfId(k + 1, j);
    IntervalOfId(k, 2 * j);
    IntervalOfId(k, 2 * j + 1);
  }

  /** left_step and right_step subtract and add half of the subtree: each child is one level down,
      has x as its parent, and together with x the children split x's interval. */
  lemma ChildrenOf(x: nat)
    requires Level(x) > 0
    ensures var k := Level(x); var l, r := LeftStep(x), RightStep(x);
      && l == x - Pow2(k - 1) && r == x + Pow2(k - 1)
      && Level(l) == Level(r) == k - 1
      && ParentStep(l) == ParentStep(r) == x
      && Lo(l) == Lo(x) && Hi(l) == x - 1
      && Lo(r) == x + 1 && Hi(r) == Hi(x)
  {
    hide *;
    Coordinates(x);
    var k, j := Level(x) - 1, Index(x);
    ChildSteps(k, j);
    ParentStepAt(k, 2 * j);
    ParentStepAt(k, 2 * j + 1);
    LevelOfId(k, 2 * j);
    LevelOfId(k, 2 * j + 1);
    ChildIntervals(k, j);
    assert (2 * j) / 2 == j && (2 * j + 1) / 2 == j;
  }

  lemma LeafOrNot(x: nat)
    ensures Lo(x) <= x <= Hi(x) && (IsLeaf(x) <==> Level(x) == 0) && (IsLeaf(x) ==> Lo(x) == x == Hi(x))
    ensures (!IsLeaf(x) ==> Lo(x) < x < Hi(x))
  {
  }

  /** parent_step is the inverse: x is one of the two children of its parent. */
  lemma ParentOf(x: nat)
    ensures var p := ParentStep(x);
      && Level(p) == Level(x) + 1
      && (x == LeftStep(p) || x == RightStep(p))
  {
    Coordinates(x);
    var k, j := Level(x), Index(x);
    ParentStepAt(k, j);
    ChildSteps(k, j / 2);
  }

  /** Subtrees are nested or disjoint, and levels drop strictly going down. */
  lemma {:induction false} Nested(y: nat, x: nat)
    requires InSubtree(y, x)
    ensures Lo(x) <= Lo(y) && Hi(y) <= Hi(x)
    ensures y != x ==> Level(y) < Level(x)
    decreases Level(x)
  {
    IntervalWidth(x);
    if y != x {
      ChildrenOf(x);
      if y < x {
        Nested(y, LeftStep(x));
      } else {
        Nested(y, RightStep(x));
      }
    }
  }

  lemma MutualSubtree(x: nat, y: nat)
    requires InSubtree(x, y) && InSubtree(y, x)
    ensures x == y
  {
    Nested(x, y);
    Nested(y, x);
  }

  /** A position below 2^e has its whole subtree below 2^e - 1 when it is not 2^e - 1 itself. */
  lemma {:induction false} SubtreeBelow(x: nat, e: nat)
    requires x < Pow2(e)
    ensures x == Pow2(e) - 1 || Hi(x) + 1 < Pow2(e)
  {
    if x % 2 == 1 && e > 0 {
      SubtreeBelow(x / 2, e - 1);
    }
  }

  /** Inside the 64-bit words of the source nothing wraps: for all positions below 2^63 - 1 the shift
      amounts stay below 64 and every shifted operand and every result is below 2^64. */
  lemma StepsFitWord(x: nat)
    requires x + 1 < Pow2(63)
    ensures Level(x) <= 62
    ensures Level(x) > 0 ==> Shl(3, Level(x) - 1) < Pow2(64) && RightStep(x) < Pow2(63)
    ensures ParentStep(x) < Pow2(63) && Shl(1, Level(x) + 1) < Pow2(64)
  {
    hide *;
    var k := Level(x);
    IntervalWidth(x);
    SubtreeBelow(x, 63);
    if k > 62 {
      Pow2Mono(63, k);
    }
    ShlBelow(k);
    if k > 0 {
      ChildrenOf(x);
    }
    ParentOf(x);
    ChildrenOf(ParentStep(x));
    if x == LeftStep(ParentStep(x)) {
      assert ParentStep(x) == Hi(x) + 1;
    }
  }

  lemma ShlBelow(k: nat)
    requires k <= 62
    ensures Shl(1, k + 1) < Pow2(64)
    ensures k > 0 ==> Shl(3, k - 1) < Pow2(64)
  {
    ShlPow2(1, k + 1);
    Pow2Mono(k + 1, 63);
    assert Pow2(64) == 2 * Pow2(63);
    if k > 0 {
      ShlPow2(3, k - 1);
      assert Pow2(k + 1) == 4 * Pow2(k - 1);
    }
  }
}
