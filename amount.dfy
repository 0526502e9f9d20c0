/** Consensus amounts: a signed 64-bit count of austoshis, the unit
    constants, and the range check applied to every amount in consensus
    validation. */
module Amount {

  const INT64_MIN: int := -0x8000_0000_0000_0000
  const INT64_MAX: int := 0x7fff_ffff_ffff_ffff

  /** An amount in austoshis; int64_t, so it can be negative. */
  type CAmount = v: int | INT64_MIN <= v <= INT64_MAX

  /** A hundredth of a coin. */
  const CENT: CAmount := 1_000_000

  /** The number of austoshis in one coin. */
  const COIN: CAmount := 100_000_000

  /** No valid amount exceeds 84 million coins. The product is computed in
      CAmount, so its type states that it does not overflow. */
  const MAX_MONEY: CAmount := 84_000_000 * COIN

  /** MoneyRange: the amount is neither negative nor above MAX_MONEY. */
  predicate MoneyRange(nValue: CAmount) {
    nValue >= 0 && nValue <= MAX_MONEY
  }

  /** The constants as numbers: MAX_MONEY is 8.4e15 austoshis, well inside
      int64, and a coin is a hundred cents. */
  lemma Constants()
    ensures MAX_MONEY == 84_000_000 * COIN == 8_400_000_000_000_000
    ensures COIN == 100 * CENT
    ensures 0 < MAX_MONEY < INT64_MAX
  {
  }

  /** MoneyRange holds exactly on the closed interval [0, 8.4e15]. */
  lemma MoneyRangeExact(v: CAmount)
    ensures MoneyRange(v) <==> 0 <= v <= 8_400_000_000_000_000
  {
  }

  /** Although CAmount is signed, no negative amount is in range. */
  lemma NegativeRejected(v: CAmount)
    requires v < 0
    ensures !MoneyRange(v)
  {
  }

  /** Both ends of the range are included and the next amount up is not. */
  lemma Boundaries()
    ensures MoneyRange(0) && MoneyRange(MAX_MONEY)
    ensures !MoneyRange(MAX_MONEY + 1)
  {
  }

  /** The sum of two amounts in range cannot overflow int64, so adding them
      before checking the total is safe; the total itself need not be in
      range. */
  lemma SumFits(a: CAmount, b: CAmount)
    requires MoneyRange(a) && MoneyRange(b)
    ensures INT64_MIN <= a + b <= INT64_MAX
    ensures 0 <= a + b <= 2 * MAX_MONEY
  {
  }
}
