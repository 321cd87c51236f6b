/** The C operators `|` and `&` on unsigned words, read bit by bit as numbers,
    and the facts about single bits and low masks that the kernel relies on. */
module Bits {
  function Pow2(k: nat): (r: nat)
    ensures r > 0
  {
    if k == 0 then 1 else 2 * Pow2(k - 1)
  }

  lemma {:induction false} PowAdd(a: nat, b: nat)
    ensures Pow2(a + b) == Pow2(a) * Pow2(b)
  {
    if a > 0 {
      PowAdd(a - 1, b);
      assert Pow2(a + b) == 2 * Pow2(a - 1 + b);
    }
  }

  function Or(a: nat, b: nat): nat
    decreases a + b
  {
    if a == 0 && b == 0 then 0
    else (if a % 2 == 1 || b % 2 == 1 then 1 else 0) + 2 * Or(a / 2, b / 2)
  }

  function And(a: nat, b: nat): nat
    decreases a
  {
    if a == 0 then 0
    else (if a % 2 == 1 && b % 2 == 1 then 1 else 0) + 2 * And(a / 2, b / 2)
  }

  /** Whether bit `j` of `a` is set. */
  predicate Bit(a: nat, j: nat) {
    if j == 0 then a % 2 == 1 else Bit(a / 2, j - 1)
  }

  lemma {:induction false} OrZero(a: nat)
    ensures Or(a, 0) == a
  {
    if a != 0 { OrZero(a / 2); }
  }

  /** Setting a clear bit adds its weight. */
  lemma {:induction false} OrSetsBit(a: nat, j: nat)
    requires !Bit(a, j)
    ensures Or(a, Pow2(j)) == a + Pow2(j)
    ensures Bit(a + Pow2(j), j)
    ensures forall i: nat :: i != j ==> Bit(a + Pow2(j), i) == Bit(a, i)
  {
    if j == 0 {
      OrZero(a / 2);
      assert (a + 1) / 2 == a / 2;
      forall i: nat | i != 0 ensures Bit(a + Pow2(0), i) == Bit(a, i) {
        assert Pow2(0) == 1;
      }
    } else {
      OrSetsBit(a / 2, j - 1);
      assert (a + Pow2(j)) / 2 == a / 2 + Pow2(j - 1);
      assert (a + Pow2(j)) % 2 == a % 2;
      forall i: nat | i != j ensures Bit(a + Pow2(j), i) == Bit(a, i) {
        if i > 0 { assert Bit(a / 2 + Pow2(j - 1), i - 1) == Bit(a / 2, i - 1); }
      }
    }
  }

  lemma {:induction false} AndZero(a: nat)
    ensures And(a, 0) == 0
  {
    if a != 0 { AndZero(a / 2); }
  }

  /** Masking with `2^k - 1` is the remainder. */
  lemma {:induction false} AndMask(a: nat, k: nat)
    ensures And(a, Pow2(k) - 1) == a % Pow2(k)
  {
    if k == 0 {
      AndZero(a);
    } else if a != 0 {
      var m := Pow2(k - 1);
      AndMask(a / 2, k - 1);
      HalfRemainder(a, m);
      assert (2 * m - 1) / 2 == m - 1 && (2 * m - 1) % 2 == 1;
      assert And(a, 2 * m - 1) == a % 2 + 2 * And(a / 2, m - 1);
    }
  }

  lemma HalfRemainder(a: nat, m: nat)
    requires m > 0
    ensures a % (2 * m) == a % 2 + 2 * ((a / 2) % m)
  {
    var h := a / 2;
    var q := h / m;
    assert h == q * m + h % m;
    var r := a % 2 + 2 * (h % m);
    assert a == q * (2 * m) + r;
    RemainderUnique(a, 2 * m, q, r);
  }

  lemma RemainderUnique(a: int, d: int, q: int, r: int)
    requires d > 0 && 0 <= r < d && a == q * d + r
    ensures a % d == r && a / d == q
  {
    var q', r' := a / d, a % d;
    assert a == d * q' + r';
    assert 0 <= r' < d;
    Multiple(q - q', d, r' - r);
  }

  lemma Multiple(x: int, d: int, y: int)
    requires d > 0 && x * d == y && -d < y < d
    ensures x == 0
  {
    MulBounds(x, d);
  }

  lemma MulBounds(x: int, d: int)
    requires d > 0
    ensures x >= 1 ==> x * d >= d
    ensures x <= -1 ==> x * d <= -d
  {
    if x >= 1 { assert (x - 1) * d >= 0; }
    if x <= -1 { assert (x + 1) * d <= 0; }
  }

  /** Masking with one bit tests it. */
  lemma {:induction false} AndBit(a: nat, j: nat)
    ensures And(a, Pow2(j)) == if Bit(a, j) then Pow2(j) else 0
  {
    if a == 0 {
      ZeroHasNoBits(j);
    } else if j == 0 {
      AndZero(a / 2);
    } else {
      AndBit(a / 2, j - 1);
    }
  }

  lemma {:induction false} ZeroHasNoBits(j: nat)
    ensures !Bit(0, j)
  {
    if j > 0 { ZeroHasNoBits(j - 1); }
  }

  /** A multiple of `2^k` has its low `k` bits clear. */
  lemma {:induction false} AlignedBits(a: nat, k: nat, j: nat)
    requires a % Pow2(k) == 0 && j < k
    ensures !Bit(a, j)
  {
    HalfRemainder(a, Pow2(k - 1));
    if j > 0 { AlignedBits(a / 2, k - 1, j - 1); }
  }

  /** A number below `2^j` has bit `j` clear. */
  lemma {:induction false} SmallBits(a: nat, j: nat)
    requires a < Pow2(j)
    ensures !Bit(a, j)
  {
    if j > 0 { SmallBits(a / 2, j - 1); }
  }

  ghost predicate IsPow2(a: nat) {
    exists k: nat :: a == Pow2(k)
  }

  /** `a & (a - 1)` is zero exactly for zero and the powers of two. */
  lemma {:induction false} PowerOfTwoTest(a: nat)
    requires a > 0
    ensures And(a, a - 1) == 0 <==> IsPow2(a)
  {
    if a == 1 {
      assert a == Pow2(0);
      assert And(1, 0) == 0 by { AndZero(1); }
    } else if a % 2 == 1 {
      // The top bit survives the mask, and an odd number above one is no power of two.
      assert (a - 1) / 2 == a / 2;
      AndSelf(a / 2);
      forall k: nat ensures a != Pow2(k) {
        if k > 0 { assert Pow2(k) % 2 == 0; }
      }
    } else {
      assert (a - 1) / 2 == a / 2 - 1;
      PowerOfTwoTest(a / 2);
      if IsPow2(a / 2) {
        var k: nat :| a / 2 == Pow2(k);
        assert a == Pow2(k + 1);
      }
      if IsPow2(a) {
        var k: nat :| a == Pow2(k);
        assert k > 0 && a / 2 == Pow2(k - 1);
      }
    }
  }

  lemma {:induction false} AndSelf(a: nat)
    ensures And(a, a) == a
  {
    if a != 0 { AndSelf(a / 2); }
  }
}
