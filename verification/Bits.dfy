/** Binary digits, and the digits of the step that __ac_inc computes. */
module Bits {
  import opened KHashTheory
  import opened Powers
  import opened Probing

  // Binary digit i of x.
  predicate Bit(x: nat, i: nat) { if i == 0 then x % 2 == 1 else Bit(x / 2, i - 1) }

  lemma {:induction false} NoBits(i: nat)
    ensures !Bit(0, i)
  {
    if i > 0 {
      NoBits(i - 1);
    }
  }

  lemma TwiceBit(x: nat, r: nat, i: nat)
    requires r < 2
    ensures Bit(2 * x + r, i) <==> if i == 0 then r == 1 else Bit(x, i - 1)
  {
    assert (2 * x + r) / 2 == x && (2 * x + r) % 2 == r;
  }

  lemma {:induction false} XorBit(a: nat, b: nat, i: nat)
    ensures Bit(Xor(a, b), i) <==> Bit(a, i) != Bit(b, i)
  {
    hide Bit;
    if a == 0 || b == 0 {
      NoBits(i);
    } else {
      TwiceBit(Xor(a / 2, b / 2), (a + b) % 2, i);
      Split(a, i);
      Split(b, i);
      if i > 0 {
        XorBit(a / 2, b / 2, i - 1);
      } else {
        assert (a + b) % 2 == 1 <==> a % 2 != b % 2;
      }
    }
  }

  lemma Split(x: nat, i: nat)
    ensures Bit(x, i) <==> if i == 0 then x % 2 == 1 else Bit(x / 2, i - 1)
  {
  }

  lemma OrOneBit(a: nat, i: nat)
    ensures Bit(OrOne(a), i) <==> i == 0 || Bit(a, i)
  {
    if i > 0 && a % 2 == 0 {
      assert (a + 1) / 2 == a / 2;
    }
  }

  lemma ShiftedDown(x: nat, i: nat)
    ensures Bit(x / 8, i) <==> Bit(x, i + 3)
  {
    hide Bit;
    Split(x, i + 3);
    Split(x / 2, i + 2);
    Split(x / 4, i + 1);
  }

  lemma ShiftedUp(x: nat, i: nat)
    ensures Bit(8 * x, i) <==> i >= 3 && Bit(x, i - 3)
  {
    hide Bit;
    TwiceBit(4 * x, 0, i);
    if i > 0 {
      TwiceBit(2 * x, 0, i - 1);
    }
    if i > 1 {
      TwiceBit(x, 0, i - 2);
    }
  }

  // Modulo 2^m only the lowest m digits are left.
  lemma {:induction false} ModBit(x: nat, m: nat, i: nat)
    ensures Bit(x % Pow(m), i) <==> i < m && Bit(x, i)
  {
    hide Pow, Bit;
    if m == 0 {
      PowZero();
      DivModIs(x, 1, x, 0);
      NoBits(i);
    } else {
      PowNext(m - 1);
      HalfMod(x, Pow(m - 1));
      TwiceBit((x / 2) % Pow(m - 1), x % 2, i);
      Split(x, i);
      if i > 0 {
        ModBit(x / 2, m - 1, i - 1);
      }
    }
  }

  lemma WordIs()
    ensures WORD == Pow(32)
  {
    PowAdd(8, 8);
    PowAdd(16, 16);
    assert Pow(8) == 256;
  }

  // ((k >> 3 ^ k << 3) | 1) & (2^m - 1), digit by digit.
  lemma StepBits(k: Word, m: nat, i: nat)
    requires 0 < m < 32
    ensures PowerOfTwo(Pow(m)) && Pow(m) > 1
    ensures Bit(Step(k, Pow(m)), i) <==>
      i < m && (i == 0 || (Bit(k, i + 3) != (i >= 3 && Bit(k, i - 3))))
  {
    hide Bit, Pow, And, Xor, OrOne;
    PowerPow(m);
    var y := Xor(k / 8, (k * 8) % WORD);
    AndMask(OrOne(y), Pow(m));
    ModBit(OrOne(y), m, i);
    OrOneBit(y, i);
    XorBit(k / 8, (k * 8) % WORD, i);
    ShiftedDown(k, i);
    WordIs();
    ModBit(k * 8, 32, i);
    ShiftedUp(k, i);
  }

  // khash2's step is one more than what k leaves when divided by n - 1.
  lemma StepModular(k: Word, n: nat)
    requires n > 2 && !PowerOfTwo(n)
    ensures 1 <= Step(k, n) < n && (k + 1 - Step(k, n)) % (n - 1) == 0
  {
    var q, r := k / (n - 1), k % (n - 1);
    assert k - r == q * (n - 1);
    DivModIs(k - r, n - 1, q, 0);
  }

  lemma {:induction false} PowerPow(m: nat)
    ensures PowerOfTwo(Pow(m)) && (m > 0 ==> Pow(m) > 1)
  {
    if m > 0 {
      PowerPow(m - 1);
    }
  }
}
