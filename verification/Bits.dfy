/**
 Unsigned integers as bit strings: the C operators `& | ~ << >>` on values that are natural numbers
 here, and what they do to each bit.
 */
module Bits {
  import opened Bytes
  import opened Arithmetic

  /** Bit `i` of `x`, counting from the least significant one. */
  predicate Bit(x: nat, i: nat) {
    if i == 0 then x % 2 == 1 else Bit(x / 2, i - 1)
  }

  function Pow2(n: nat): (r: nat)
    ensures 0 < r
  {
    if n == 0 then 1 else 2 * Pow2(n - 1)
  }

  function And(x: nat, y: nat): nat {
    if x == 0 || y == 0 then 0 else (x % 2) * (y % 2) + 2 * And(x / 2, y / 2)
  }

  function Or(x: nat, y: nat): nat {
    if x == 0 then y else if y == 0 then x
    else (if x % 2 == 1 || y % 2 == 1 then 1 else 0) + 2 * Or(x / 2, y / 2)
  }

  /** `~x` on 8 bits. */
  function Not8(x: byte): byte {
    255 - x
  }

  function Shl(x: nat, n: nat): nat {
    x * Pow2(n)
  }

  function Shr(x: nat, n: nat): nat {
    if n == 0 then x else Shr(x / 2, n - 1)
  }

  /** The `n` low bits: a cast to an `n` bit type. */
  function Low(x: nat, n: nat): (r: nat)
    ensures r < Pow2(n)
  {
    if n == 0 then 0 else x % 2 + 2 * Low(x / 2, n - 1)
  }

  /** The mask `(1 << n) - 1`. */
  function Mask(n: nat): nat {
    Pow2(n) - 1
  }

  lemma {:induction false} BitOfZero(i: nat)
    ensures !Bit(0, i)
  {
    if i > 0 { BitOfZero(i - 1); }
  }

  /** A number by its last digit. */
  lemma BitOfDigit(d: nat, rest: nat, i: nat)
    requires d < 2
    ensures Bit(d + 2 * rest, i) <==> if i == 0 then d == 1 else Bit(rest, i - 1)
  {
    assert (d + 2 * rest) / 2 == rest;
  }

  lemma {:induction false} BitAnd(x: nat, y: nat, i: nat)
    ensures Bit(And(x, y), i) <==> Bit(x, i) && Bit(y, i)
  {
    if x == 0 || y == 0 {
      BitOfZero(i);
    } else {
      var d := (x % 2) * (y % 2);
      assert d == if x % 2 == 1 && y % 2 == 1 then 1 else 0;
      BitOfDigit(d, And(x / 2, y / 2), i);
      if i > 0 { BitAnd(x / 2, y / 2, i - 1); }
    }
  }

  lemma {:induction false} BitOr(x: nat, y: nat, i: nat)
    ensures Bit(Or(x, y), i) <==> Bit(x, i) || Bit(y, i)
  {
    if x == 0 || y == 0 {
      BitOfZero(i);
    } else if i > 0 {
      BitOr(x / 2, y / 2, i - 1);
    }
  }

  lemma {:induction false} BitShl(x: nat, n: nat, i: nat)
    ensures Bit(Shl(x, n), i) <==> n <= i && Bit(x, i - n)
  {
    if n > 0 {
      assert Shl(x, n) == 2 * Shl(x, n - 1);
      if i > 0 { BitShl(x, n - 1, i - 1); }
    }
  }

  lemma {:induction false} BitShr(x: nat, n: nat, i: nat)
    ensures Bit(Shr(x, n), i) <==> Bit(x, n + i)
  {
    if n > 0 { BitShr(x / 2, n - 1, i); }
  }

  lemma {:induction false} BitLow(x: nat, n: nat, i: nat)
    ensures Bit(Low(x, n), i) <==> i < n && Bit(x, i)
  {
    if n == 0 {
      BitOfZero(i);
    } else {
      BitOfDigit(x % 2, Low(x / 2, n - 1), i);
      if i > 0 { BitLow(x / 2, n - 1, i - 1); }
    }
  }

  lemma {:induction false} BitMask(n: nat, i: nat)
    ensures Bit(Mask(n), i) <==> i < n
  {
    if n == 0 {
      BitOfZero(i);
    } else {
      assert Mask(n) == 1 + 2 * Mask(n - 1);
      if i > 0 { BitMask(n - 1, i - 1); }
    }
  }

  lemma {:induction false} BitNot8(x: nat, n: nat, i: nat)
    requires x < Pow2(n) && i < n
    ensures Bit(Pow2(n) - 1 - x, i) <==> !Bit(x, i)
  {
    if i > 0 {
      assert (Pow2(n) - 1 - x) / 2 == Pow2(n - 1) - 1 - x / 2;
      BitNot8(x / 2, n - 1, i - 1);
    }
  }

  lemma {:induction false} SmallBits(x: nat, n: nat, i: nat)
    requires x < Pow2(n) && n <= i
    ensures !Bit(x, i)
  {
    if n == 0 {
      BitOfZero(i);
    } else if i > 0 {
      SmallBits(x / 2, n - 1, i - 1);
    }
  }

  /** Numbers with the same bits are the same. */
  lemma {:induction false} SameBits(x: nat, y: nat)
    requires forall i: nat :: Bit(x, i) <==> Bit(y, i)
    ensures x == y
    decreases x + y
  {
    if x == 0 && y == 0 {
    } else {
      assert Bit(x, 0) <==> Bit(y, 0);
      forall i: nat ensures Bit(x / 2, i) <==> Bit(y / 2, i) {
        assert Bit(x, i + 1) <==> Bit(y, i + 1);
      }
      SameBits(x / 2, y / 2);
    }
  }

  /** Numbers whose bits stay below `n` are below `2^n`. */
  lemma {:induction false} FewBits(x: nat, n: nat)
    requires forall i: nat :: n <= i ==> !Bit(x, i)
    ensures x < Pow2(n)
    decreases x
  {
    if x == 0 {
    } else if n == 0 {
      SameBitsAsZero(x);
    } else {
      forall i: nat | n - 1 <= i ensures !Bit(x / 2, i) {
        assert !Bit(x, i + 1);
      }
      FewBits(x / 2, n - 1);
    }
  }

  lemma SameBitsAsZero(x: nat)
    requires forall i: nat :: !Bit(x, i)
    ensures x == 0
  {
    forall i: nat ensures Bit(x, i) <==> Bit(0, i) {
      BitOfZero(i);
    }
    SameBits(x, 0);
  }

  /** The `n` low bits are the remainder modulo `2^n`. */
  lemma {:induction false} LowIsModulo(x: nat, n: nat)
    ensures Low(x, n) == x % Pow2(n)
  {
    if n > 0 {
      LowIsModulo(x / 2, n - 1);
      HalfModulo(x, Pow2(n - 1));
    } else {
      assert Pow2(0) == 1;
    }
  }

  lemma HalfModulo(x: nat, p: nat)
    requires 0 < p
    ensures x % (2 * p) == x % 2 + 2 * (x / 2 % p)
  {
    var q, r := x / 2 / p, x / 2 % p;
    assert x / 2 == q * p + r;
    assert x == q * (2 * p) + (x % 2 + 2 * r);
    DivisionIsUnique(x, 2 * p, q, x % 2 + 2 * r);
  }
}
