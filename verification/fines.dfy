/**
 The fine schedule for lost keys. Both key types follow the same tiered
 shape: the first loss is charged the base rate, and every later loss of the
 same key type is charged the base rate twice (once as the charge, once as
 a surcharge). Room keys have base rate 10, entrance keys base rate 20.
 */
module Fines {

  const RoomKeyRate: nat := 10
  const EntranceKeyRate: nat := 20

  /**
   The fine for `n` losses at base rate `rate`, in the form the program
   computes it: `n * rate` below two losses, `n * rate + (n - 1) * rate`
   from two on. Its closed form is `(2n - 1) * rate` for every `n >= 1`.
   */
  function TierFine(n: nat, rate: nat): (fine: nat)
    ensures fine == if n == 0 then 0 else (2 * n - 1) * rate
  {
    if n < 2 then n * rate else n * rate + (n - 1) * rate
  }

  /** What the `k`-th loss (counting from 1) adds to the fine. */
  function LossCharge(k: nat, rate: nat): nat
    requires k >= 1
  {
    if k == 1 then rate else 2 * rate
  }

  /** The fine as the sum of the charges of losses 1 to `n`. */
  function ChargeTotal(n: nat, rate: nat): nat {
    if n == 0 then 0 else ChargeTotal(n - 1, rate) + LossCharge(n, rate)
  }

  /** The tiered formula charges exactly the sum of the per-loss charges. */
  lemma {:induction false} TierFineIsChargeTotal(n: nat, rate: nat)
    ensures TierFine(n, rate) == ChargeTotal(n, rate)
  {
    if n > 1 {
      TierFineIsChargeTotal(n - 1, rate);
      assert (2 * n - 1) * rate == (2 * (n - 1) - 1) * rate + 2 * rate;
    }
  }

  /** One more loss adds its own charge to the fine, and nothing else. */
  lemma TierFineStep(n: nat, rate: nat)
    ensures TierFine(n + 1, rate) == TierFine(n, rate) + LossCharge(n + 1, rate)
  {
  }

  /** More losses never mean a smaller fine. */
  lemma TierFineMonotone(m: nat, n: nat, rate: nat)
    requires m <= n
    ensures TierFine(m, rate) <= TierFine(n, rate)
  {
  }

  /** The schedule's worked values for both key types. */
  lemma FineExamples()
    ensures TierFine(0, RoomKeyRate) == 0
    ensures TierFine(1, RoomKeyRate) == 10
    ensures TierFine(2, RoomKeyRate) == 30
    ensures TierFine(3, RoomKeyRate) == 50
    ensures TierFine(0, EntranceKeyRate) == 0
    ensures TierFine(1, EntranceKeyRate) == 20
    ensures TierFine(2, EntranceKeyRate) == 60
    ensures TierFine(3, EntranceKeyRate) == 100
  {
  }
}
