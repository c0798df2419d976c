/** Trial division, for the constants in khash2's table of primes. */
module Primes {
  import opened Probing

  // No odd number from a on up to the root of p divides p.
  predicate Undivided(p: nat, a: nat)
    requires a > 0
    decreases p + 2 - a
  {
    a * a > p || (p % a != 0 && Undivided(p, a + 2))
  }

  lemma {:induction false} UndividedAt(p: nat, a: nat, b: nat)
    requires 0 < a <= b && a % 2 == b % 2 == 1 && b * b <= p && Undivided(p, a)
    ensures p % b != 0
    decreases b - a
  {
    if a < b {
      Grows(a, b);
      UndividedAt(p, a + 2, b);
    }
  }

  lemma Grows(a: nat, b: nat)
    requires a <= b
    ensures a * a <= a * b == b * a <= b * b
  {
  }

  // Of two numbers whose product is p one is at most the root of p.
  lemma TrialDivision(p: nat)
    requires p > 2 && p % 2 == 1 && Undivided(p, 3)
    ensures Prime(p)
  {
    forall a: nat | 1 < a < p ensures p % a != 0 {
      if p % a == 0 {
        var b := p / a;
        assert p == a * b;
        BothOdd(a, b, p);
        BothProper(a, b, p);
        if a <= b {
          Grows(a, b);
          UndividedAt(p, 3, a);
        } else {
          Grows(b, a);
          DivModIs(p, b, a, 0);
          UndividedAt(p, 3, b);
        }
      }
    }
  }

  lemma EvenProduct(a: nat, b: nat)
    ensures a % 2 == 0 ==> (a * b) % 2 == 0 && (b * a) % 2 == 0
  {
    if a % 2 == 0 {
      assert a * b == 2 * ((a / 2) * b) == b * a;
    }
  }

  lemma BothOdd(a: nat, b: nat, p: nat)
    requires p == a * b && p % 2 == 1
    ensures a % 2 == 1 && b % 2 == 1
  {
    EvenProduct(a, b);
    EvenProduct(b, a);
  }

  lemma BothProper(a: nat, b: nat, p: nat)
    requires p == a * b && 1 < a < p
    ensures 1 < b < p
  {
    if b > 1 {
      assert a * b >= 2 * b;
    }
  }

  lemma SmallPrimes()
    ensures forall p :: p in {3, 11, 23, 53, 97, 193, 389} ==> Prime(p)
  {
    assert forall p :: p in {3, 11, 23, 53, 97, 193, 389} ==> Undivided(p, 3);
    forall p: nat | p in {3, 11, 23, 53, 97, 193, 389} ensures Prime(p) {
      TrialDivision(p);
    }
  }

  lemma Prime769()
    ensures Prime(769)
  {
    TrialDivision(769);
  }

  lemma Prime1543()
    ensures Prime(1543)
  {
    assert Undivided(1543, 25);
    TrialDivision(1543);
  }

  lemma Prime3079()
    ensures Prime(3079)
  {
    assert Undivided(3079, 41);
    assert Undivided(3079, 25);
    TrialDivision(3079);
  }

  lemma Prime6151()
    ensures Prime(6151)
  {
    assert Undivided(6151, 65);
    assert Undivided(6151, 49);
    assert Undivided(6151, 33);
    TrialDivision(6151);
  }

  lemma Prime12289()
    ensures Prime(12289)
  {
    assert Undivided(12289, 99);
    assert Undivided(12289, 87);
    assert Undivided(12289, 75);
    assert Undivided(12289, 63);
    assert Undivided(12289, 51);
    assert Undivided(12289, 39);
    assert Undivided(12289, 27);
    assert Undivided(12289, 15);
    TrialDivision(12289);
  }

  lemma Prime24593()
    ensures Prime(24593)
  {
    assert Undivided(24593, 147);
    assert Undivided(24593, 135);
    assert Undivided(24593, 123);
    assert Undivided(24593, 111);
    assert Undivided(24593, 99);
    assert Undivided(24593, 87);
    assert Undivided(24593, 75);
    assert Undivided(24593, 63);
    assert Undivided(24593, 51);
    assert Undivided(24593, 39);
    assert Undivided(24593, 27);
    assert Undivided(24593, 15);
    TrialDivision(24593);
  }

  lemma Upper49157()
    ensures Undivided(49157, 147)
  {
    assert Undivided(49157, 219);
    assert Undivided(49157, 207);
    assert Undivided(49157, 195);
    assert Undivided(49157, 183);
    assert Undivided(49157, 171);
    assert Undivided(49157, 159);
  }

  lemma Middle49157()
    ensures Undivided(49157, 75)
  {
    Upper49157();
    assert Undivided(49157, 135);
    assert Undivided(49157, 123);
    assert Undivided(49157, 111);
    assert Undivided(49157, 99);
    assert Undivided(49157, 87);
  }

  lemma Prime49157()
    ensures Prime(49157)
  {
    Middle49157();
    assert Undivided(49157, 63);
    assert Undivided(49157, 51);
    assert Undivided(49157, 39);
    assert Undivided(49157, 27);
    assert Undivided(49157, 15);
    assert Undivided(49157, 9);
    TrialDivision(49157);
  }
}
