/** Powers of two. */
module Powers {
  function Pow(n: nat): (p: nat)
    ensures p >= 1
  {
    if n == 0 then 1 else 2 * Pow(n - 1)
  }

  lemma PowZero()
    ensures Pow(0) == 1
  {
  }

  lemma PowNext(n: nat)
    ensures Pow(n + 1) == 2 * Pow(n)
  {
  }

  lemma {:induction false} PowAdd(m: nat, n: nat)
    ensures Pow(m + n) == Pow(m) * Pow(n)
  {
    hide Pow;
    if m == 0 {
      PowZero();
    } else {
      PowAdd(m - 1, n);
      PowNext(m - 1);
      PowNext(m - 1 + n);
    }
  }

  lemma {:induction false} PowGrows(m: nat, n: nat)
    requires m < n
    ensures 2 * Pow(m) <= Pow(n)
  {
    hide Pow;
    PowNext(n - 1);
    if m + 1 < n {
      PowGrows(m, n - 1);
    }
  }
}
