/**
 Exclusive or on natural numbers, bit by bit. Words are modelled as integers, so that
 `c >> 1` is c / 2, `c & 1` is c % 2 and `a ^ b` is Xor(a, b).
 */
module Bitwise {

  function Xor(a: nat, b: nat): (x: nat)
    decreases a + b
  {
    if a == 0 && b == 0 then 0 else 2 * Xor(a / 2, b / 2) + if a % 2 == b % 2 then 0 else 1
  }

  function Pow2(n: nat): (p: nat)
    ensures p > 0
  {
    if n == 0 then 1 else 2 * Pow2(n - 1)
  }

  lemma Pow2Word()
    ensures Pow2(31) == 0x8000_0000 && Pow2(32) == 0x1_0000_0000
  {
    assert Pow2(8) == 0x100;
    assert Pow2(16) == 0x100 * Pow2(8) by {
      assert Pow2(12) == 0x10 * Pow2(8);
    }
    assert Pow2(24) == 0x100 * Pow2(16) by {
      assert Pow2(20) == 0x10 * Pow2(16);
    }
    assert Pow2(31) == 0x80 * Pow2(24) by {
      assert Pow2(28) == 0x10 * Pow2(24);
    }
  }

  lemma XorBits(a: nat, b: nat)
    ensures Xor(a, b) / 2 == Xor(a / 2, b / 2)
    ensures Xor(a, b) % 2 == if a % 2 == b % 2 then 0 else 1
  {
  }

  lemma {:induction false} XorZero(a: nat)
    ensures Xor(a, 0) == a == Xor(0, a)
  {
    if a > 0 {
      XorZero(a / 2);
    }
  }

  lemma {:induction false} XorComm(a: nat, b: nat)
    ensures Xor(a, b) == Xor(b, a)
    decreases a + b
  {
    if a > 0 || b > 0 {
      XorComm(a / 2, b / 2);
    }
  }

  lemma {:induction false} XorAssoc(a: nat, b: nat, c: nat)
    ensures Xor(Xor(a, b), c) == Xor(a, Xor(b, c))
    decreases a + b + c
  {
    if a > 0 || b > 0 || c > 0 {
      XorAssoc(a / 2, b / 2, c / 2);
      XorBits(a, b);
      XorBits(b, c);
      XorBits(Xor(a, b), c);
      XorBits(a, Xor(b, c));
      assert Xor(Xor(a, b), c) / 2 == Xor(a, Xor(b, c)) / 2;
      assert Xor(Xor(a, b), c) % 2 == Xor(a, Xor(b, c)) % 2;
    }
  }

  lemma {:induction false} XorCancel(a: nat, b: nat, c: nat)
    requires Xor(a, b) == Xor(a, c)
    ensures b == c
    decreases a + b + c
  {
    if a > 0 || b > 0 || c > 0 {
      XorBits(a, b);
      XorBits(a, c);
      XorCancel(a / 2, b / 2, c / 2);
    }
  }

  lemma {:induction false} XorBound(a: nat, b: nat, n: nat)
    requires a < Pow2(n) && b < Pow2(n)
    ensures Xor(a, b) < Pow2(n)
    decreases n
  {
    if n > 0 {
      XorBound(a / 2, b / 2, n - 1);
    }
  }

  /** The top bit of one operand survives when the other operand is too short to reach it. */
  lemma {:induction false} XorTop(a: nat, b: nat, n: nat)
    requires a < Pow2(n) <= b
    ensures Pow2(n) <= Xor(a, b)
    decreases n
  {
    if n > 0 {
      XorTop(a / 2, b / 2, n - 1);
    } else {
      XorZero(b);
    }
  }

  lemma {:induction false} XorSelf(a: nat)
    ensures Xor(a, a) == 0
  {
    if a > 0 {
      XorSelf(a / 2);
    }
  }

  lemma XorSwap(a: nat, b: nat, c: nat, d: nat)
    ensures Xor(Xor(a, b), Xor(c, d)) == Xor(Xor(a, c), Xor(b, d))
  {
    XorAssoc(a, b, Xor(c, d));
    XorAssoc(b, c, d);
    XorComm(b, c);
    XorAssoc(c, b, d);
    XorAssoc(a, c, Xor(b, d));
  }

  /** Against a word of n ones, exclusive or is the complement. */
  lemma {:induction false} XorOnes(n: nat, b: nat)
    requires b < Pow2(n)
    ensures Xor(Pow2(n) - 1, b) == Pow2(n) - 1 - b
  {
    if n > 0 {
      var p := Pow2(n - 1);
      XorBits(2 * p - 1, b);
      hide Xor;
      assert (2 * p - 1) / 2 == p - 1 && (2 * p - 1) % 2 == 1;
      XorOnes(n - 1, b / 2);
    }
  }
}
