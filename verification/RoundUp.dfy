/**
 kroundup32: the shift-and-or cascade that rounds a 32-bit word up to a power of two, and the proof
 that it does.
 */
module RoundUp {
  import opened Powers
  import opened Probing

  function Or(a: nat, b: nat): nat {
    if a == 0 then b else if b == 0 then a
    else (if a % 2 == 1 || b % 2 == 1 then 1 else 0) + 2 * Or(a / 2, b / 2)
  }

  lemma {:induction false} OrBounds(a: nat, b: nat, q: nat)
    requires a < Pow(q) && b < Pow(q)
    ensures b <= Or(a, b) < Pow(q)
    decreases q
  {
    if a != 0 && b != 0 {
      OrBounds(a / 2, b / 2, q - 1);
    }
  }

  lemma OrZero(y: nat)
    ensures Or(y, 0) == y
  {
  }

  // Or-ing low bits into a number leaves the high part alone.
  lemma {:induction false} OrHigh(h: nat, y: nat, z: nat, q: nat)
    requires y < Pow(q) && z < Pow(q)
    ensures Or(h * Pow(q) + y, z) == h * Pow(q) + Or(y, z)
    decreases q
  {
    hide Or, Pow;
    if q == 0 {
      PowZero();
      OrZero(h);
      OrZero(0);
    } else {
      PowNext(q - 1);
      Twice(h, Pow(q - 1));
      OrHigh(h, y / 2, z / 2, q - 1);
      OrStep(h * Pow(q - 1), y, z);
    }
  }

  lemma Twice(h: nat, p: nat)
    ensures h * (2 * p) == 2 * (h * p)
  {
  }

  // Numbers 2t + y and z or-ed bit by bit.
  lemma OrStep(t: nat, y: nat, z: nat)
    requires Or(t + y / 2, z / 2) == t + Or(y / 2, z / 2)
    ensures Or(2 * t + y, z) == 2 * t + Or(y, z)
  {
    var x := 2 * t + y;
    assert x / 2 == t + y / 2 && x % 2 == y % 2;
  }

  // y has len bits and its top j bits (or all of them) are ones.
  ghost predicate TopOnes(y: nat, len: nat, j: nat) {
    Pow(len) - Pow(if j < len then len - j else 0) <= y < Pow(len)
  }

  // One step of the cascade doubles the run of ones at the top.
  lemma SmearStep(y: nat, len: nat, j: nat)
    requires TopOnes(y, len, j) && j > 0
    ensures TopOnes(Or(y, y / Pow(j)), len, 2 * j)
  {
    hide Or, Pow;
    if j >= len {
      if j > len { PowGrows(len, j); }
      DivModIs(y, Pow(j), 0, y);
      OrZero(y);
    } else {
      HighShift(y, len, j);
      SmearLow(y, y / Pow(j), len, j);
    }
  }

  lemma SmearLow(y: nat, z: nat, len: nat, j: nat)
    requires TopOnes(y, len, j) && 0 < j < len && z < Pow(len - j)
    requires Pow(len - j) - Pow(if 2 * j < len then len - 2 * j else 0) <= z
    ensures TopOnes(Or(y, z), len, 2 * j)
  {
    hide Pow, Or;
    var q, m, h := len - j, Pow(len - j), Pow(j) - 1;
    assert Pow(len) == h * m + m by { PowAdd(j, q); }
    var low := y - h * m;
    assert low < m && y == h * m + low;
    OrHigh(h, low, z, q);
    OrBounds(low, z, q);
  }

  // The shifted-down copy of y sits below the run of ones and starts with one of its own.
  lemma HighShift(y: nat, len: nat, j: nat)
    requires TopOnes(y, len, j) && 0 < j < len
    ensures Pow(len - j) - Pow(if 2 * j < len then len - 2 * j else 0) <= y / Pow(j) < Pow(len - j)
  {
    PowAdd(j, len - j);
    DivBelow(y, Pow(j), Pow(len - j));
    if 2 * j < len {
      PowAdd(j, len - 2 * j);
      ShiftRun(y, Pow(j), Pow(len - j), Pow(len - 2 * j));
    } else {
      if len - j < j { PowGrows(len - j, j); }
      ShiftAll(y, Pow(j), Pow(len - j));
    }
  }

  lemma ShiftRun(y: nat, p: nat, m: nat, r: nat)
    requires p > 0 && m == p * r && y >= p * m - m
    ensures y / p >= m - r
  {
    assert (m - r) * p == p * m - p * r;
    DivAtLeast(y, p, m - r);
  }

  lemma ShiftAll(y: nat, p: nat, m: nat)
    requires p >= m > 0 && y >= p * m - m
    ensures y / p >= m - 1
  {
    assert (m - 1) * p == p * m - p;
    DivAtLeast(y, p, m - 1);
  }

  lemma DivBelow(y: nat, p: nat, m: nat)
    requires p > 0 && y < p * m
    ensures y / p < m
  {
    MulBound(y / p - m, p);
    assert (y / p - m) * p == (y / p) * p - m * p;
  }

  lemma DivAtLeast(y: nat, p: nat, m: int)
    requires p > 0 && y >= m * p
    ensures y / p >= m
  {
    MulBound(y / p - m, p);
    assert (y / p - m) * p == (y / p) * p - m * p;
  }

  lemma {:induction false} Length(y: nat) returns (len: nat)
    requires y > 0
    ensures TopOnes(y, len, 1) && len > 0
  {
    if y == 1 {
      len := 1;
      assert Pow(1) == 2 && Pow(0) == 1;
    } else {
      var l := Length(y / 2);
      len := l + 1;
      assert Pow(len) == 2 * Pow(l) && Pow(l) == 2 * Pow(l - 1);
    }
  }

  lemma {:induction false} PowIsPower(n: nat)
    ensures PowerOfTwo(Pow(n))
  {
    if n > 0 {
      PowIsPower(n - 1);
    }
  }

  lemma PowDouble(n: nat, p: nat)
    requires Pow(n) == p
    ensures Pow(2 * n) == p * p
  {
    PowAdd(n, n);
  }

  lemma Pow32()
    ensures Pow(1) == 2 && Pow(2) == 4 && Pow(4) == 16 && Pow(8) == 256 && Pow(16) == 65536
    ensures Pow(31) == WORD / 2 && Pow(32) == WORD
  {
    PowDouble(1, 2);
    PowDouble(2, 4);
    PowDouble(4, 16);
    PowDouble(8, 256);
    PowDouble(16, 65536);
    var n: nat := 31;
    assert Pow(n + 1) == 2 * Pow(n);
  }

  // The cascade fills every bit below the top one.
  function Cascade(a: nat): nat {
    var b := Or(a, a / 2);
    var c := Or(b, b / 4);
    var d := Or(c, c / 16);
    var e := Or(d, d / 256);
    Or(e, e / 65536)
  }

  lemma CascadeFills(a: nat, len: nat)
    requires TopOnes(a, len, 1) && len <= 32
    ensures Cascade(a) == Pow(len) - 1
  {
    Pow32();
    SmearStep(a, len, 1);
    var b := Or(a, a / 2);
    SmearStep(b, len, 2);
    var c := Or(b, b / 4);
    SmearStep(c, len, 4);
    var d := Or(c, c / 16);
    SmearStep(d, len, 8);
    SmearStep(Or(d, d / 256), len, 16);
  }

  // --x, five times x |= x >> s with s = 1, 2, 4, 8, 16, and ++x, all on 32 bits.
  function RoundUp32(x: Word): Word {
    (Cascade((x + (WORD - 1)) % WORD) + 1) % WORD
  }

  lemma LengthRange(a: nat, len: nat)
    requires TopOnes(a, len, 1) && len > 0 && a < WORD
    ensures len <= 32 && (a < WORD / 2 ==> len <= 31) && (a >= WORD / 2 ==> Pow(len) == WORD)
    ensures Pow(len) == 2 * Pow(len - 1) && Pow(len - 1) <= a
    ensures len <= 31 ==> Pow(len) <= WORD / 2
  {
    Pow32();
    if len > 32 { PowGrows(32, len); }
    if len < 31 { PowGrows(len, 31); }
  }

  lemma CascadeIs(a: Word) returns (p: nat)
    ensures Cascade(a) + 1 == p && PowerOfTwo(p)
    ensures a < WORD / 2 ==> a < p <= WORD / 2 && (p == 1 || p / 2 <= a)
    ensures a >= WORD / 2 ==> p == WORD
  {
    if a == 0 {
      p := 1;
    } else {
      var len := Length(a);
      LengthRange(a, len);
      CascadeFills(a, len);
      PowIsPower(len);
      p := Pow(len);
    }
  }

  // The least power of two that is not below x; 0 when that does not fit a word, and for x = 0.
  lemma RoundUpIs(x: Word)
    ensures var r := RoundUp32(x);
      if 0 < x <= WORD / 2 then PowerOfTwo(r) && x <= r <= WORD / 2 && (r == 1 || r / 2 < x) else r == 0
  {
    hide Cascade, PowerOfTwo, Pow, Or;
    var a: Word := (x + (WORD - 1)) % WORD;
    assert a == if x == 0 then WORD - 1 else x - 1;
    var p := CascadeIs(a);
    assert RoundUp32(x) == p % WORD;
  }
}
