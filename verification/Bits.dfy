/** Keys as numbers: their leading bits, and single bits. */
module Bits {
  function Pow2(n: nat): (r: nat)
    ensures r > 0
  {
    if n == 0 then 1 else 2 * Pow2(n - 1)
  }

  /** `k >> m` */
  function Top(k: nat, m: nat): nat
    decreases m
  {
    if m == 0 then k else Top(k / 2, m - 1)
  }

  /** `(k >> m) & 1` */
  function Bit(k: nat, m: nat): (b: nat)
    ensures b < 2
  {
    Top(k, m) % 2
  }

  /** Dropping bits twice drops their sum. */
  lemma {:induction false} TopTop(k: nat, a: nat, b: nat)
    ensures Top(Top(k, a), b) == Top(k, a + b)
    decreases a
  {
    if a > 0 {
      TopTop(k / 2, a - 1, b);
    }
  }

  /** One bit less is one bit more. */
  lemma TopBit(k: nat, m: nat)
    ensures Top(k, m) == 2 * Top(k, m + 1) + Bit(k, m)
  {
    TopTop(k, m, 1);
    assert Top(Top(k, m), 1) == Top(k, m) / 2;
  }

  lemma {:induction false} TopMonotone(j: nat, k: nat, m: nat)
    requires j <= k
    ensures Top(j, m) <= Top(k, m)
    decreases m
  {
    if m > 0 {
      TopMonotone(j / 2, k / 2, m - 1);
    }
  }

  lemma {:induction false} TopSmall(k: nat, m: nat)
    requires k < Pow2(m)
    ensures Top(k, m) == 0
    decreases m
  {
    if m > 0 {
      TopSmall(k / 2, m - 1);
    }
  }

  lemma {:induction false} Pow2Add(a: nat, b: nat)
    ensures Pow2(a + b) == Pow2(a) * Pow2(b)
  {
    if a > 0 {
      Pow2Add(a - 1, b);
    }
  }

  /** Bits from the eighth above `m` on do not reach the byte at `m`. */
  lemma {:induction false} TopAdd(r: nat, c: nat, m: nat)
    ensures Top(r + c * Pow2(m + 8), m) == Top(r, m) + 256 * c
    decreases m
  {
    if m == 0 {
      Pow2Eight();
    } else {
      assert c * Pow2(m + 8) == 2 * (c * Pow2(m + 7));
      assert (r + c * Pow2(m + 8)) / 2 == r / 2 + c * Pow2(m + 7);
      TopAdd(r / 2, c, m - 1);
    }
  }

  lemma Pow2Eight()
    ensures Pow2(8) == 256
  {
    assert Pow2(8) == 2 * Pow2(7) == 4 * Pow2(6) == 8 * Pow2(5);
    assert Pow2(5) == 2 * Pow2(4) == 4 * Pow2(3) == 8 * Pow2(2) == 32;
  }

  /** `k` is the least of the keys that are not less than `q`. */
  ghost predicate LeastFrom(keys: set<nat>, q: nat, k: nat) {
    k in keys && q <= k && forall j :: j in keys && q <= j ==> k <= j
  }
}
