/**
 The arithmetic under open addressing: the words the macros compute with, and the coverage theorem
 for probe sequences whose step shares no factor with the table size.
 */
module Probing {

  const WORD := 0x1_0000_0000

  type Word = x: nat | x < WORD

  // ---------- Bitwise operations on natural numbers ----------

  function And(a: nat, b: nat): nat {
    if a == 0 || b == 0 then 0 else (if a % 2 == 1 && b % 2 == 1 then 1 else 0) + 2 * And(a / 2, b / 2)
  }

  function Xor(a: nat, b: nat): nat {
    if a == 0 then b else if b == 0 then a else (a + b) % 2 + 2 * Xor(a / 2, b / 2)
  }

  function OrOne(a: nat): nat { if a % 2 == 0 then a + 1 else a }

  predicate PowerOfTwo(n: nat) {
    n == 1 || (n > 1 && n % 2 == 0 && PowerOfTwo(n / 2))
  }

  lemma AndStep(x: nat, m: nat, r: nat)
    requires x > 0 && m > 0 && And(x / 2, m - 1) == r
    ensures And(x, 2 * m - 1) == x % 2 + 2 * r
  {
    hide And;
    DivModIs(2 * m - 1, 2, m - 1, 1);
    AndOdd(x, 2 * m - 1, m - 1);
  }

  lemma AndOdd(x: nat, y: nat, half: nat)
    requires x > 0 && y > 0 && y % 2 == 1 && y / 2 == half
    ensures And(x, y) == x % 2 + 2 * And(x / 2, half)
  {
    assert x % 2 == 0 || x % 2 == 1;
  }

  // Masking with n - 1 is reduction modulo n.
  lemma {:induction false} AndMask(x: nat, n: nat)
    requires PowerOfTwo(n)
    ensures And(x, n - 1) == x % n
  {
    if n == 1 {
      DivModIs(x, 1, x, 0);
    } else if x == 0 {
      DivModIs(0, n, 0, 0);
    } else {
      AndMask(x / 2, n / 2);
      AndDouble(x, n / 2, n);
    }
  }

  lemma AndDouble(x: nat, m: nat, n: nat)
    requires x > 0 && m > 0 && n == 2 * m && And(x / 2, m - 1) == (x / 2) % m
    ensures And(x, n - 1) == x % n
  {
    AndStep(x, m, (x / 2) % m);
    HalfMod(x, m);
  }

  lemma HalfMod(x: nat, m: nat)
    requires m > 0
    ensures x % (2 * m) == x % 2 + 2 * ((x / 2) % m)
  {
    var q, r := (x / 2) / m, (x / 2) % m;
    assert x == 2 * (q * m + r) + x % 2;
    DivModIs(x, 2 * m, q, x % 2 + 2 * r);
  }

  lemma MulBound(d: int, n: nat)
    ensures d >= 1 ==> d * n >= n
    ensures d <= -1 ==> d * n + n <= 0
  {
  }

  lemma DivModIs(x: int, n: nat, q: int, r: nat)
    requires x == q * n + r && r < n
    ensures x / n == q && x % n == r
  {
    var d := x / n - q;
    assert d * n == r - x % n;
    MulBound(d, n);
  }

  // ---------- Steps that reach every bucket ----------

  // Multiples of inc come back to 0 modulo n only after a multiple of n steps.
  ghost predicate Covering(inc: nat, n: nat) {
    n > 0 && forall d: nat {:trigger d * inc} :: (d * inc) % n == 0 ==> d % n == 0
  }

  lemma OddProduct(a: nat, b: nat)
    requires a % 2 == 1 && b % 2 == 1
    ensures (a * b) % 2 == 1
  {
    var x, y := a / 2, b / 2;
    OddTimesOdd(x, y);
    DivModIs(a * b, 2, 2 * (x * y) + x + y, 1);
  }

  lemma OddTimesOdd(x: nat, y: nat)
    ensures (2 * x + 1) * (2 * y + 1) == 2 * (2 * (x * y) + x + y) + 1
  {
  }

  // Odd steps cover power-of-two tables.
  lemma {:induction false} OddStep(d: nat, inc: nat, n: nat)
    requires PowerOfTwo(n) && inc % 2 == 1 && (d * inc) % n == 0
    ensures d % n == 0
    decreases n
  {
    if n > 1 {
      var m := n / 2;
      var q := (d * inc) / n;
      assert d * inc == 2 * (q * m);
      assert d % 2 == 0 by {
        if d % 2 == 1 {
          OddProduct(d, inc);
        }
      }
      var e := d / 2;
      assert e * inc == q * m;
      DivModIs(e * inc, m, q, 0);
      OddStep(e, inc, m);
      assert d == (e / m) * n + 0;
      DivModIs(d, n, e / m, 0);
    }
  }

  lemma OddCovers(inc: nat, n: nat)
    requires PowerOfTwo(n) && inc % 2 == 1
    ensures Covering(inc, n)
  {
    forall d: nat | (d * inc) % n == 0 ensures d % n == 0 {
      OddStep(d, inc, n);
    }
  }

  lemma OddMod(x: nat, m: nat)
    requires m > 0 && x % 2 == 1
    ensures (x % (2 * m)) % 2 == 1
  {
    HalfMod(x, m);
  }

  ghost predicate Prime(p: nat) {
    p > 1 && forall a: nat :: 1 < a < p ==> p % a != 0
  }

  // Euclid's lemma, by division: the remainder of p by the step is a smaller step with the same property.
  lemma {:induction false} PrimeStep(d: nat, inc: nat, p: nat)
    requires Prime(p) && 0 < inc < p && (d * inc) % p == 0
    ensures d % p == 0
    decreases inc
  {
    if inc > 1 {
      var q, r := p / inc, p % inc;
      var z := (d * inc) / p;
      assert d * r == (d - q * z) * p by {
        assert d * r == d * p - q * (d * inc);
        assert d * inc == z * p;
      }
      DivModIs(d * r, p, d - q * z, 0);
      PrimeStep(d, r, p);
    }
  }

  lemma PrimeCovers(inc: nat, p: nat)
    requires Prime(p) && 0 < inc < p
    ensures Covering(inc, p)
  {
    forall d: nat | (d * inc) % p == 0 ensures d % p == 0 {
      PrimeStep(d, inc, p);
    }
  }

  // ---------- The probe sequence ----------

  // Bucket j of the search that starts at h and keeps adding inc modulo n.
  function Probe(h: nat, inc: nat, n: nat, j: nat): (b: nat)
    requires h < n
    ensures b < n
  {
    if j == 0 then h else (Probe(h, inc, n, j - 1) + inc) % n
  }

  lemma {:induction false} ProbeClosed(h: nat, inc: nat, n: nat, j: nat)
    requires h < n
    ensures Probe(h, inc, n, j) == (h + j * inc) % n
  {
    if j == 0 {
      DivModIs(h, n, 0, h);
    } else {
      hide Probe;
      ProbeNext(h, inc, n, j - 1);
      ProbeClosed(h, inc, n, j - 1);
      ModAdd(h + (j - 1) * inc, inc, n);
      OneMore(j - 1, inc);
    }
  }

  lemma ProbeNext(h: nat, inc: nat, n: nat, j: nat)
    requires h < n
    ensures Probe(h, inc, n, j + 1) == (Probe(h, inc, n, j) + inc) % n
  {
  }

  lemma OneMore(j: nat, inc: nat)
    ensures (j + 1) * inc == j * inc + inc
  {
  }

  lemma ModAdd(x: nat, y: nat, n: nat)
    requires n > 0
    ensures (x % n + y) % n == (x + y) % n
  {
    var q := (x % n + y) / n;
    assert x + y == (x / n + q) * n + (x % n + y) % n;
    DivModIs(x + y, n, x / n + q, (x % n + y) % n);
  }

  lemma SameResidue(x: nat, y: nat, n: nat)
    requires n > 0 && x <= y && x % n == y % n
    ensures (y - x) % n == 0
  {
    var q := y / n - x / n;
    assert y - x == q * n;
    DivModIs(y - x, n, q, 0);
  }

  // A covering step does not revisit a bucket before n steps are done.
  lemma ProbeDistinct(h: nat, inc: nat, n: nat, i: nat, j: nat)
    requires h < n && Covering(inc, n) && i < j < i + n
    ensures Probe(h, inc, n, i) != Probe(h, inc, n, j)
  {
    ProbeClosed(h, inc, n, i);
    ProbeClosed(h, inc, n, j);
    Products(h, inc, i, j);
    if (h + i * inc) % n == (h + j * inc) % n {
      SameResidue(h + i * inc, h + j * inc, n);
      DivModIs(j - i, n, 0, j - i);
    }
  }

  lemma Products(h: nat, inc: nat, i: nat, j: nat)
    requires i < j
    ensures (j - i) * inc >= 0 && (h + j * inc) - (h + i * inc) == (j - i) * inc
  {
  }

  ghost function Visited(h: nat, inc: nat, n: nat, j: nat): set<nat>
    requires h < n
  {
    if j == 0 then {} else Visited(h, inc, n, j - 1) + {Probe(h, inc, n, j - 1)}
  }

  lemma {:induction false} VisitedWhen(h: nat, inc: nat, n: nat, j: nat, b: nat) returns (i: nat)
    requires h < n && b in Visited(h, inc, n, j)
    ensures i < j && Probe(h, inc, n, i) == b
  {
    if b == Probe(h, inc, n, j - 1) {
      i := j - 1;
    } else {
      i := VisitedWhen(h, inc, n, j - 1, b);
    }
  }

  lemma {:induction false} VisitedSize(h: nat, inc: nat, n: nat, j: nat)
    requires h < n && Covering(inc, n) && j <= n
    ensures |Visited(h, inc, n, j)| == j
  {
    if j > 0 {
      VisitedSize(h, inc, n, j - 1);
      if Probe(h, inc, n, j - 1) in Visited(h, inc, n, j - 1) {
        var i := VisitedWhen(h, inc, n, j - 1, Probe(h, inc, n, j - 1));
        ProbeDistinct(h, inc, n, i, j - 1);
      }
    }
  }

  lemma {:induction false} FullSubset(s: set<nat>, n: nat)
    requires (forall b :: b in s ==> b < n) && |s| == n
    ensures forall b: nat :: b < n ==> b in s
  {
    if n > 0 {
      var s' := s - {n - 1};
      if n - 1 in s {
        FullSubset(s', n - 1);
      } else {
        SubsetSize(s, n - 1);
        assert false;
      }
    }
  }

  lemma {:induction false} SubsetSize(s: set<nat>, n: nat)
    requires forall b :: b in s ==> b < n
    ensures |s| <= n
  {
    if n == 0 {
      assert s == {};
    } else {
      SubsetSize(s - {n - 1}, n - 1);
    }
  }

  // Every bucket is met within n probes.
  lemma Coverage(h: nat, inc: nat, n: nat, b: nat) returns (j: nat)
    requires h < n && Covering(inc, n) && b < n
    ensures j < n && Probe(h, inc, n, j) == b
  {
    VisitedSize(h, inc, n, n);
    forall v | v in Visited(h, inc, n, n) ensures v < n {
      var i := VisitedWhen(h, inc, n, n, v);
    }
    FullSubset(Visited(h, inc, n, n), n);
    j := VisitedWhen(h, inc, n, n, b);
  }

  // The search is back at its first bucket exactly after n probes.
  lemma FirstReturn(h: nat, inc: nat, n: nat, j: nat)
    requires h < n && Covering(inc, n) && 0 < j <= n
    ensures Probe(h, inc, n, j) == h <==> j == n
  {
    if j < n {
      ProbeDistinct(h, inc, n, 0, j);
    } else {
      ProbeClosed(h, inc, n, n);
      assert h + n * inc == inc * n + h;
      DivModIs(h + n * inc, n, inc, h);
    }
  }
}
