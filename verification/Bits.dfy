/** Unsigned bit operations, bit by bit, and what masking by a prefix does to a number. */
module Bits {

  function Pow2(k: nat): (p: nat)
    ensures 1 <= p
    ensures 0 < k ==> p % 2 == 0
  {
    if k == 0 then 1 else 2 * Pow2(k - 1)
  }

  /** Bitwise and. */
  function And(x: nat, y: nat): nat {
    if x == 0 || y == 0 then 0
    else (if x % 2 == 1 && y % 2 == 1 then 1 else 0) + 2 * And(x / 2, y / 2)
  }

  /** Bitwise or. */
  function Or(x: nat, y: nat): nat {
    if x == 0 then y
    else if y == 0 then x
    else (if x % 2 == 1 || y % 2 == 1 then 1 else 0) + 2 * Or(x / 2, y / 2)
  }

  /** `x` with its low `k` bits cleared: the start of the aligned block of 2^k numbers holding `x`. */
  function Floor(x: nat, k: nat): (b: nat)
    ensures b <= x < b + Pow2(k)
  {
    if k == 0 then x else 2 * Floor(x / 2, k - 1)
  }

  lemma {:induction false} Pow2Mono(a: nat, b: nat)
    requires a <= b
    ensures Pow2(a) <= Pow2(b)
    decreases b
  {
    if a < b { Pow2Mono(a, b - 1); }
  }

  /** A block of k bits lies inside the word of w bits. */
  lemma {:induction false} FloorInWord(x: nat, k: nat, w: nat)
    requires k <= w && x < Pow2(w)
    ensures Floor(x, k) + Pow2(k) <= Pow2(w)
  {
    if k == 0 {
    } else {
      FloorInWord(x / 2, k - 1, w - 1);
    }
  }

  lemma TwiceMultiple(q: nat, k: nat)
    requires k > 0
    ensures q * Pow2(k) == 2 * (q * Pow2(k - 1))
  {
    var p := Pow2(k - 1);
    assert Pow2(k) == 2 * p;
    hide Pow2;
    assert q * (2 * p) == 2 * (q * p);
  }

  /** The numbers that rounding down leaves alone are the multiples of 2^k. */
  lemma {:induction false} FloorMultiple(x: nat, k: nat) returns (q: nat)
    ensures Floor(x, k) == q * Pow2(k)
  {
    if k == 0 {
      q := x;
    } else {
      q := FloorMultiple(x / 2, k - 1);
      TwiceMultiple(q, k);
    }
  }

  lemma {:induction false} MultipleFloor(q: nat, k: nat)
    ensures Floor(q * Pow2(k), k) == q * Pow2(k)
  {
    if k > 0 {
      TwiceMultiple(q, k);
      MultipleFloor(q, k - 1);
      var m := q * Pow2(k - 1);
      hide Pow2;
      assert 2 * m / 2 == m;
    }
  }

  lemma {:induction false} FloorFloor(x: nat, k: nat)
    ensures Floor(Floor(x, k), k) == Floor(x, k)
  {
    if k > 0 {
      FloorFloor(x / 2, k - 1);
    }
  }

  /** The aligned block at `b` is exactly the numbers whose floor is `b`. */
  lemma {:induction false} FloorBlock(x: nat, b: nat, k: nat)
    requires Floor(b, k) == b
    ensures Floor(x, k) == b <==> b <= x < b + Pow2(k)
  {
    if k > 0 {
      assert b % 2 == 0 && Floor(b / 2, k - 1) == b / 2;
      FloorBlock(x / 2, b / 2, k - 1);
    }
  }

  lemma {:induction false} AndAllOnes(w: nat, x: nat)
    requires x < Pow2(w)
    ensures And(x, Pow2(w) - 1) == x
  {
    if w > 0 && x > 0 {
      AndAllOnes(w - 1, x / 2);
      assert (Pow2(w) - 1) / 2 == Pow2(w - 1) - 1;
    }
  }

  /** Masking with `w - k` leading ones clears the low `k` bits. */
  lemma {:induction false} AndPrefix(w: nat, k: nat, x: nat)
    requires k <= w && x < Pow2(w)
    ensures Pow2(k) <= Pow2(w) && And(x, Pow2(w) - Pow2(k)) == Floor(x, k)
  {
    Pow2Mono(k, w);
    if k == 0 {
      AndAllOnes(w, x);
    } else {
      AndPrefix(w - 1, k - 1, x / 2);
      assert (Pow2(w) - Pow2(k)) / 2 == Pow2(w - 1) - Pow2(k - 1);
      if x == 0 { FloorZero(k); }
    }
  }

  lemma {:induction false} FloorZero(k: nat)
    ensures Floor(0, k) == 0
  {
    if k > 0 { FloorZero(k - 1); }
  }

  /** Or with `k` low ones fills the low `k` bits. */
  lemma {:induction false} OrSuffix(k: nat, x: nat)
    ensures Or(x, Pow2(k) - 1) == Floor(x, k) + Pow2(k) - 1
  {
    if k == 0 {
    } else if x == 0 {
      FloorZero(k);
    } else {
      OrSuffix(k - 1, x / 2);
      assert (Pow2(k) - 1) / 2 == Pow2(k - 1) - 1;
    }
  }
}
