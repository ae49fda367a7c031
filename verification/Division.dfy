/** Division of unsigned numbers by a variable, written as repeated subtraction so that the proofs
    that carry quotients along stay linear.  Here it is shown to be division. */
module Division {

  /** x / d */
  function Quotient(x: nat, d: nat): nat
    requires d > 0
  {
    if x < d then 0 else 1 + Quotient(x - d, d)
  }

  /** x % d */
  function Remainder(x: nat, d: nat): (r: nat)
    requires d > 0
    ensures r < d
  {
    if x < d then x else Remainder(x - d, d)
  }

  lemma {:induction false} IsDivision(x: nat, d: nat)
    requires d > 0
    ensures Quotient(x, d) == x / d && Remainder(x, d) == x % d
  {
    if x >= d {
      IsDivision(x - d, d);
      DivStep(x, d);
    }
  }

  lemma DivStep(x: nat, d: nat)
    requires 0 < d <= x
    ensures x / d == 1 + (x - d) / d && x % d == (x - d) % d
  {
    var e := x / d - 1 - (x - d) / d;
    assert e * d == (x - d) % d - x % d;
  }

  lemma {:induction false} QuotientBelow(x: nat, d: nat, n: nat)
    requires d > 0 && x < n * d
    ensures Quotient(x, d) < n
    decreases n
  {
    if x >= d {
      assert (n - 1) * d == n * d - d;
      QuotientBelow(x - d, d, n - 1);
    }
  }

  /** A number is fixed by its quotient and remainder. */
  lemma {:induction false} SamePlace(x: nat, y: nat, d: nat)
    requires d > 0 && Quotient(x, d) == Quotient(y, d) && Remainder(x, d) == Remainder(y, d)
    ensures x == y
  {
    if x >= d && y >= d {
      SamePlace(x - d, y - d, d);
    }
  }

  /** x / d rounded up. */
  lemma RoundedUp(x: nat, d: nat)
    requires d > 0
    ensures (x / d + 1) * d > x
  {
    assert x == (x / d) * d + x % d;
  }

  /** m * d, by repeated addition */
  function Multiple(m: nat, d: nat): (x: nat)
  {
    if m == 0 then 0 else Multiple(m - 1, d) + d
  }

  lemma {:induction false} IsProduct(m: nat, d: nat)
    ensures Multiple(m, d) == m * d
  {
    if m > 0 {
      IsProduct(m - 1, d);
    }
  }

  lemma {:induction false} MultipleMonotone(m: nat, k: nat, d: nat)
    requires d > 0
    ensures m <= k <==> Multiple(m, d) <= Multiple(k, d)
    ensures m < k ==> Multiple(m, d) + d <= Multiple(k, d)
    decreases m + k
  {
    if m > 0 && k > 0 {
      MultipleMonotone(m - 1, k - 1, d);
    } else if k > 0 {
      assert Multiple(k, d) == Multiple(k - 1, d) + d;
    }
  }

  lemma {:induction false} QuotientBounds(x: nat, d: nat)
    requires d > 0
    ensures Multiple(Quotient(x, d), d) + Remainder(x, d) == x
  {
    if x >= d {
      QuotientBounds(x - d, d);
    }
  }

  /** The number k past m multiples of d. */
  lemma {:induction false} DivideMultiple(m: nat, d: nat, k: nat)
    requires k < d
    ensures Quotient(Multiple(m, d) + k, d) == m && Remainder(Multiple(m, d) + k, d) == k
  {
    if m > 0 {
      DivideMultiple(m - 1, d, k);
    }
  }

  predicate Aligned(x: nat, d: nat)
    requires d > 0
  {
    Remainder(x, d) == 0
  }

  lemma {:induction false} AlignedSum(x: nat, y: nat, d: nat)
    requires d > 0 && Aligned(x, d)
    ensures Aligned(y, d) <==> Aligned(x + y, d)
  {
    if x >= d {
      AlignedSum(x - d, y, d);
    }
  }

  /** Multiples of a multiple of d are multiples of d. */
  lemma {:induction false} AlignedMultiple(m: nat, e: nat, d: nat)
    requires d > 0 && Aligned(e, d)
    ensures Aligned(Multiple(m, e), d)
  {
    if m > 0 {
      AlignedMultiple(m - 1, e, d);
      AlignedSum(Multiple(m - 1, e), e, d);
    }
  }

  lemma {:induction false} AlignedRemainder(x: nat, e: nat, d: nat)
    requires d > 0 && e > 0 && Aligned(e, d) && Aligned(x, d)
    ensures Aligned(Remainder(x, e), d)
  {
    if x >= e {
      AlignedSum(e, x - e, d);
      AlignedRemainder(x - e, e, d);
    }
  }

  /** Two different multiples of d are at least d apart. */
  lemma {:induction false} AlignedGap(x: nat, y: nat, d: nat)
    requires d > 0 && Aligned(x, d) && Aligned(y, d) && x < y
    ensures x + d <= y
  {
    if x >= d {
      AlignedGap(x - d, y - d, d);
    }
  }

  lemma {:induction false} MultipleSum(m: nat, k: nat, d: nat)
    ensures Multiple(m + k, d) == Multiple(m, d) + Multiple(k, d)
  {
    if k > 0 {
      MultipleSum(m, k - 1, d);
    }
  }

  lemma {:induction false} MultipleOfMultiple(m: nat, k: nat, d: nat)
    ensures Multiple(Multiple(m, k), d) == Multiple(m, Multiple(k, d))
  {
    if m > 0 {
      MultipleOfMultiple(m - 1, k, d);
      MultipleSum(Multiple(m - 1, k), k, d);
    }
  }
}
