/**
 * Bit masks over tile positions, written arithmetically on `nat`.
 *
 * The solver enumerates subsets of tile positions as integers whose set bits
 * name the positions. JavaScript's `1 << i`, `x & y`, `x | y` and `x ^ y` are
 * modelled here by `Pow2`, `And`, `Or` and `Xor`, defined one binary digit at
 * a time, so that the lemmas about sub-masks can be proved by induction on
 * the digits.
 */
module Bits {

  /** `1 << i`: the mask holding position `i` alone. */
  function Pow2(i: nat): (r: nat)
    ensures r > 0
  {
    if i == 0 then 1 else 2 * Pow2(i - 1)
  }

  /** Bitwise and: no larger than either operand. */
  function And(x: nat, y: nat): (r: nat)
    ensures r <= x && r <= y
  {
    if x == 0 || y == 0 then 0
    else 2 * And(x / 2, y / 2) + (if x % 2 == 1 && y % 2 == 1 then 1 else 0)
  }

  /** Bitwise or: at least either operand and at most their sum. */
  function Or(x: nat, y: nat): (r: nat)
    ensures x <= r && y <= r && r <= x + y
    decreases x + y
  {
    if x == 0 then y
    else if y == 0 then x
    else 2 * Or(x / 2, y / 2) + (if x % 2 == 1 || y % 2 == 1 then 1 else 0)
  }

  /** Bitwise exclusive or: at most the sum of the operands, and zero exactly for equal ones. */
  function Xor(x: nat, y: nat): (r: nat)
    ensures r <= x + y
    ensures r == 0 <==> x == y
    decreases x + y
  {
    if x == 0 then y
    else if y == 0 then x
    else 2 * Xor(x / 2, y / 2) + (if x % 2 != y % 2 then 1 else 0)
  }

  /** Every position of `a` is a position of `m` (`(a & m) === a`). */
  predicate IsSubmask(a: nat, m: nat)
  {
    And(a, m) == a
  }

  lemma {:induction false} Pow2Increasing(i: nat, j: nat)
    requires i < j
    ensures Pow2(i) < Pow2(j)
  {
    if i + 1 < j {
      Pow2Increasing(i, j - 1);
    }
  }

  lemma Pow2Injective(i: nat, j: nat)
    requires Pow2(i) == Pow2(j)
    ensures i == j
  {
    if i < j {
      Pow2Increasing(i, j);
    } else if j < i {
      Pow2Increasing(j, i);
    }
  }

  /** Dropping the lowest digit of a mask and of one of its sub-masks keeps the relation. */
  lemma SubmaskHalves(a: nat, m: nat)
    requires IsSubmask(a, m)
    ensures m == 0 ==> a == 0
    ensures IsSubmask(a / 2, m / 2)
    ensures a % 2 == 1 ==> m % 2 == 1
  {
    if a != 0 && m != 0 {
      assert a == 2 * And(a / 2, m / 2) + (if a % 2 == 1 && m % 2 == 1 then 1 else 0);
    }
  }

  /** `x & m` is always a sub-mask of `m`. */
  lemma {:induction false} AndIsSubmask(x: nat, m: nat)
    ensures IsSubmask(And(x, m), m)
  {
    if x != 0 && m != 0 {
      var r := And(x, m);
      var h := And(x / 2, m / 2);
      AndIsSubmask(x / 2, m / 2);
      if r != 0 {
        assert r / 2 == h && r % 2 == (if x % 2 == 1 && m % 2 == 1 then 1 else 0);
      }
    }
  }

  lemma {:induction false} SelfSubmask(m: nat)
    ensures IsSubmask(m, m)
  {
    if m != 0 {
      SelfSubmask(m / 2);
    }
  }

  /** Halving a number written as `2 * q + r` with a digit `r`. */
  lemma Halves(x: nat, q: nat, r: nat)
    requires x == 2 * q + r && r < 2
    ensures x / 2 == q && x % 2 == r
  {
  }

  /** `And` of two non-zero numbers given by their halves and lowest digits. */
  lemma AndDigits(x: nat, qx: nat, bx: nat, y: nat, qy: nat, dy: nat)
    requires x == 2 * qx + bx && bx < 2 && x != 0
    requires y == 2 * qy + dy && dy < 2 && y != 0
    ensures And(x, y) == 2 * And(qx, qy) + (if bx == 1 && dy == 1 then 1 else 0)
  {
    Halves(x, qx, bx);
    Halves(y, qy, dy);
  }

  /** `Xor` of two non-zero numbers given by their halves and lowest digits. */
  lemma XorDigits(x: nat, qx: nat, bx: nat, y: nat, qy: nat, dy: nat)
    requires x == 2 * qx + bx && bx < 2 && x != 0
    requires y == 2 * qy + dy && dy < 2 && y != 0
    ensures Xor(x, y) == 2 * Xor(qx, qy) + (if bx != dy then 1 else 0)
  {
    Halves(x, qx, bx);
    Halves(y, qy, dy);
  }

  /**
   * One digit of `ComplementSum`: `a` and `c` add up to `m` without a carry,
   * and the facts for their halves give those for the whole.
   */
  lemma ComplementDigit(a: nat, qa: nat, ba: nat, c: nat, qc: nat, bc: nat, m: nat, qm: nat, bm: nat)
    requires a == 2 * qa + ba && c == 2 * qc + bc && m == 2 * qm + bm
    requires ba + bc == bm < 2 && qa + qc == qm && a != 0 && c != 0
    requires Xor(qm, qa) == qc && IsSubmask(qc, qm) && And(qa, qc) == 0
    ensures Xor(m, a) == c && IsSubmask(c, m) && And(a, c) == 0
  {
    XorDigits(m, qm, bm, a, qa, ba);
    AndDigits(c, qc, bc, m, qm, bm);
    AndDigits(a, qa, ba, c, qc, bc);
  }

  /** A sub-mask `a` of `m` and the rest `c` of `m`: `m ^ a` is `c`, a sub-mask of `m` disjoint from `a`. */
  lemma {:induction false} ComplementSum(a: nat, c: nat, m: nat)
    requires IsSubmask(a, m) && a + c == m
    ensures Xor(m, a) == c && IsSubmask(c, m) && And(a, c) == 0
  {
    if a == 0 {
      SelfSubmask(m);
    } else if c != 0 {
      SubmaskHalves(a, m);
      ComplementSum(a / 2, c / 2, m / 2);
      ComplementDigit(a, a / 2, a % 2, c, c / 2, c % 2, m, m / 2, m % 2);
    }
  }

  /**
   * For a sub-mask `a` of `m`, `m ^ a` is the complement `m - a`; it is a
   * sub-mask of `m`, it shares no position with `a`, and `a | (m - a)` is `m`.
   */
  lemma Complement(a: nat, m: nat)
    requires IsSubmask(a, m)
    ensures a <= m
    ensures Xor(m, a) == m - a
    ensures IsSubmask(m - a, m)
    ensures And(a, m - a) == 0
    ensures Or(a, m - a) == m
  {
    ComplementSum(a, m - a, m);
    DisjointOr(a, m - a);
  }

  /**
   * `(a - 1) & m` is the largest sub-mask of `m` below the non-empty sub-mask
   * `a`: every sub-mask `s < a` is at most it.
   */
  lemma {:induction false} NextSubmask(a: nat, m: nat, s: nat)
    requires IsSubmask(a, m) && IsSubmask(s, m)
    requires 0 < a && s < a
    ensures s <= And(a - 1, m)
  {
    SubmaskHalves(a, m);
    SubmaskHalves(s, m);
    if s == 0 || a == 1 {
    } else if a % 2 == 1 {
      assert And(a - 1, m) == 2 * And(a / 2, m / 2);
    } else {
      NextSubmask(a / 2, m / 2, s / 2);
      assert (a - 1) / 2 == a / 2 - 1 && (a - 1) % 2 == 1;
      assert And(a - 1, m) == 2 * And(a / 2 - 1, m / 2) + (if m % 2 == 1 then 1 else 0);
    }
  }

  /** A single position has no sub-masks but itself and the empty one. */
  lemma {:induction false} Pow2Submask(i: nat, a: nat)
    requires IsSubmask(a, Pow2(i))
    ensures a == 0 || a == Pow2(i)
  {
    SubmaskHalves(a, Pow2(i));
    if i > 0 {
      assert Pow2(i) / 2 == Pow2(i - 1) && Pow2(i) % 2 == 0;
      Pow2Submask(i - 1, a / 2);
    }
  }

  /** The search in the solver's split loop starts empty on a single position. */
  lemma Pow2NoProperSubmask(i: nat)
    ensures And(Pow2(i) - 1, Pow2(i)) == 0
  {
    AndIsSubmask(Pow2(i) - 1, Pow2(i));
    Pow2Submask(i, And(Pow2(i) - 1, Pow2(i)));
  }

  lemma {:induction false} AndCommutes(x: nat, y: nat)
    ensures And(x, y) == And(y, x)
  {
    if x != 0 && y != 0 {
      AndCommutes(x / 2, y / 2);
    }
  }

  lemma {:induction false} OrCommutes(x: nat, y: nat)
    ensures Or(x, y) == Or(y, x)
    decreases x + y
  {
    if x != 0 && y != 0 {
      OrCommutes(x / 2, y / 2);
    }
  }

  /** Positions shared by neither operand: the union of disjoint masks is their sum. */
  lemma {:induction false} DisjointOr(x: nat, y: nat)
    requires And(x, y) == 0
    ensures Or(x, y) == x + y
    decreases x + y
  {
    if x != 0 && y != 0 {
      DisjointOr(x / 2, y / 2);
    }
  }

  /** Each operand of `x | y` is a sub-mask of it. */
  lemma {:induction false} OrSubmask(x: nat, y: nat)
    ensures IsSubmask(x, Or(x, y))
    decreases x + y
  {
    if x == 0 {
    } else if y == 0 {
      SelfSubmask(x);
    } else {
      var o := Or(x, y);
      OrSubmask(x / 2, y / 2);
      assert o / 2 == Or(x / 2, y / 2) && o % 2 == (if x % 2 == 1 || y % 2 == 1 then 1 else 0);
    }
  }

  /** The union of two masks over the first `n` positions stays over them. */
  lemma {:induction false} OrBelow(x: nat, y: nat, n: nat)
    requires x < Pow2(n) && y < Pow2(n)
    ensures Or(x, y) < Pow2(n)
  {
    if n > 0 && x != 0 && y != 0 {
      OrBelow(x / 2, y / 2, n - 1);
    }
  }
}
