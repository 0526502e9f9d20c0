/** The 128-bit arithmetic of int-util.h: splitting a 64-bit word into 32-bit
    halves, the schoolbook 64 x 64 -> 128 multiply, long division of a
    128-bit (hi, lo) pair by a 32-bit divisor (base 2^32) and by a 64-bit
    divisor (restoring binary division), and the one-bit shift of a pair.
    Every C operator is the wrapping one of Words; the contracts state the
    exact results over unbounded naturals. */
module WideArith {
  import opened Words

  // ---- hi_dword / lo_dword ----

  /** `val >> 32`: the upper 32 bits. */
  function HiDword(v: u64): (h: u64)
    ensures h == v / TWO32 && h < TWO32
  {
    Pow2Constants();
    SplitBelow(v, TWO32, TWO32);
    Shr64(v, 32)
  }

  /** `val & 0xFFFFFFFF`: the lower 32 bits. */
  function LoDword(v: u64): (l: u64)
    ensures l == v % TWO32 && l < TWO32
  {
    Pow2Constants();
    AndLowMask(v, 32);
    And64(v, 0xFFFF_FFFF)
  }

  /** The two halves put back together give the word. */
  lemma DwordSplit(v: u64)
    ensures v == Join(HiDword(v), LoDword(v), TWO32)
    ensures HiDword(v) == v / TWO32 && LoDword(v) == v % TWO32
  {
    Pow2Constants();
    AndLowMask(v, 32);
    SplitBelow(v, TWO32, TWO32);
  }

  // ---- mul128 ----

  /** The schoolbook product of int-util.h: with multiplier = a * 2^32 + b and
      multiplicand = c * 2^32 + d, the four 32 x 32 partial products are
      added with explicit carries. `mul128` returns the low word and stores
      the high word through `product_hi`; here both come back as a pair. */
  function Mul128(multiplier: u64, multiplicand: u64): (product: U128) {
    var a := HiDword(multiplier);
    var b := LoDword(multiplier);
    var c := HiDword(multiplicand);
    var d := LoDword(multiplicand);
    var ac := Mul64(a, c);
    var ad := Mul64(a, d);
    var bc := Mul64(b, c);
    var bd := Mul64(b, d);
    var adbc := Add64(ad, bc);
    var adbcCarry: u64 := if adbc < ad then 1 else 0;
    var productLo := Add64(bd, Shl64(adbc, 32));
    var productLoCarry: u64 := if productLo < bd then 1 else 0;
    var productHi := Add64(Add64(Add64(ac, Shr64(adbc, 32)), Shl64(adbcCarry, 32)), productLoCarry);
    U128(productHi, productLo)
  }

  /** The pair returned by Mul128 is the exact product, and the runtime
      check `ac <= *product_hi` in `mul128` always holds: the high word
      never wraps. */
  lemma Mul128Exact(multiplier: u64, multiplicand: u64)
    ensures Value128(Mul128(multiplier, multiplicand).hi, Mul128(multiplier, multiplicand).lo)
         == multiplier * multiplicand
    ensures Mul64(HiDword(multiplier), HiDword(multiplicand)) <= Mul128(multiplier, multiplicand).hi
  {
    var a, b := HiDword(multiplier), LoDword(multiplier);
    var c, d := HiDword(multiplicand), LoDword(multiplicand);
    DwordSplit(multiplier);
    DwordSplit(multiplicand);
    // the partial products of two 32-bit halves never wrap
    var ac := PartialProduct(a, c);
    var ad := PartialProduct(a, d);
    var bc := PartialProduct(b, c);
    var bd := PartialProduct(b, d);
    var adbc, adbcCarry, productLo, productLoCarry := LowWord(ad, bc, bd);
    ProductRegroup(a, b, c, d, adbc, adbcCarry, productLo, productLoCarry);
    ProductBelow(multiplier, multiplicand);
    HighWord(ac, adbc, adbcCarry, productLoCarry, productLo, multiplier * multiplicand);
  }

  /** The middle sum ad + bc with its carry out of bit 63, and the low word
      bd + (adbc << 32) with its carry: neither addition loses a bit. */
  lemma LowWord(ad: u64, bc: u64, bd: u64) returns (adbc: u64, adbcCarry: u64, productLo: u64, productLoCarry: u64)
    ensures adbc == Add64(ad, bc) && adbcCarry == (if adbc < ad then 1 else 0)
    ensures productLo == Add64(bd, Shl64(adbc, 32)) && productLoCarry == (if productLo < bd then 1 else 0)
    ensures ad + bc == adbc + adbcCarry * TWO64
    ensures bd + (adbc % TWO32) * TWO32 == productLo + productLoCarry * TWO64
  {
    Pow2Constants();
    adbc := Add64(ad, bc);
    adbcCarry := if adbc < ad then 1 else 0;
    AddCarry(ad, bc);
    var mid := Shl64(adbc, 32);
    ShlBelow(adbc, TWO32, TWO32);
    productLo := Add64(bd, mid);
    productLoCarry := if productLo < bd then 1 else 0;
    AddCarry(bd, mid);
  }

  /** The high word `*product_hi` of `mul128` is the sum of the regrouped
      terms, which never wraps, and it is at least ac. */
  lemma HighWord(ac: u64, adbc: u64, adbcCarry: u64, productLoCarry: u64, productLo: u64, v: nat)
    requires adbcCarry <= 1 && productLoCarry <= 1 && v < TWO128
    requires v == Join(ac + adbc / TWO32 + adbcCarry * TWO32 + productLoCarry, productLo, TWO64)
    ensures ac + adbc / TWO32 + adbcCarry * TWO32 + productLoCarry < TWO64
    ensures Add64(Add64(Add64(ac, Shr64(adbc, 32)), Shl64(adbcCarry, 32)), productLoCarry)
         == ac + adbc / TWO32 + adbcCarry * TWO32 + productLoCarry
  {
    Pow2Constants();
    var t1 := ac + adbc / TWO32;
    var t2 := t1 + adbcCarry * TWO32;
    HighWordFits(t2 + productLoCarry, productLo, v);
    Shl64Exact(adbcCarry, 32);
    AddExact(ac, Shr64(adbc, 32));
    AddExact(t1, Shl64(adbcCarry, 32));
    AddExact(t2, productLoCarry);
  }

  /** A product of two 32-bit halves fits in 64 bits, so Mul64 is exact. */
  lemma PartialProduct(x: u64, y: u64) returns (p: u64)
    requires x < TWO32 && y < TWO32
    ensures p == Mul64(x, y) == x * y
  {
    assert x * y < TWO64 by {
      MulMono(x, TWO32 - 1, y);
      MulMono(y, TWO32 - 1, TWO32 - 1);
    }
    p := x * y;
    DivModUnique(p, TWO64, 0, p);
  }

  /** A sum below 2^64 does not wrap. */
  lemma AddExact(x: u64, y: u64)
    requires x + y < TWO64
    ensures Add64(x, y) == x + y
  {
  }

  /** A left shift that pushes no bit past bit 63 is a multiplication. */
  lemma Shl64Exact(x: u64, k: nat)
    requires k < 64 && x < Pow2(64 - k)
    ensures Shl64(x, k) == x * Pow2(k)
  {
    Pow2Constants();
    Pow2Add(64 - k, k);
    JoinBelow(x, 0, Pow2(64 - k), Pow2(k));
    DivModUnique(x * Pow2(k), TWO64, 0, x * Pow2(k));
  }

  /** Unsigned addition wraps exactly when the sum is below an operand. */
  lemma AddCarry(x: u64, y: u64)
    ensures x + y == Add64(x, y) + (if Add64(x, y) < x then TWO64 else 0)
  {
  }

  /** The algebra of the schoolbook product: regrouping the partial products
      by powers of 2^32 gives the high word s above the low word. */
  lemma ProductRegroup(a: nat, b: nat, c: nat, d: nat, adbc: nat, adbcCarry: nat,
                       productLo: nat, productLoCarry: nat)
    requires a * d + b * c == adbc + adbcCarry * TWO64
    requires b * d + (adbc % TWO32) * TWO32 == productLo + productLoCarry * TWO64
    ensures (a * TWO32 + b) * (c * TWO32 + d)
         == (a * c + adbc / TWO32 + adbcCarry * TWO32 + productLoCarry) * TWO64 + productLo
  {
    var hiMid, loMid := adbc / TWO32, adbc % TWO32;
    assert adbc == hiMid * TWO32 + loMid;
    calc {
      (a * TWO32 + b) * (c * TWO32 + d);
    ==
      a * c * TWO64 + (a * d + b * c) * TWO32 + b * d;
    ==
      a * c * TWO64 + (adbc + adbcCarry * TWO64) * TWO32 + b * d;
    ==
      a * c * TWO64 + (hiMid * TWO32 + loMid) * TWO32 + adbcCarry * TWO32 * TWO64 + b * d;
    ==
      (a * c + hiMid + adbcCarry * TWO32) * TWO64 + (b * d + loMid * TWO32);
    ==
      (a * c + hiMid + adbcCarry * TWO32 + productLoCarry) * TWO64 + productLo;
    }
  }

  /** The product of two 64-bit words is below 2^128. */
  lemma ProductBelow(x: u64, y: u64)
    ensures x * y < TWO128
  {
    MulMono(x, TWO64 - 1, y);
    MulMono(y, TWO64 - 1, TWO64 - 1);
    assert (TWO64 - 1) * (TWO64 - 1) < TWO128;
  }

  /** A 128-bit value written as s * 2^64 + lo has s below 2^64. */
  lemma HighWordFits(s: nat, lo: nat, v: nat)
    requires v == Join(s, lo, TWO64) && v < TWO128
    ensures s < TWO64
  {
    if s >= TWO64 {
      MulMono(TWO64, s, TWO64);
    }
  }

  // ---- div_with_reminder / div128_32 ----

  /** One limb of base-2^32 long division: the running remainder becomes the
      upper half of a 64-bit dividend, which is divided by the divisor; the
      new remainder goes back through the pointer. With a limb below 2^32
      and a running remainder below the divisor the OR is an addition, the
      quotient digit fits in 32 bits and the step is exact. */
  method DivWithReminder(dividend: u64, divisor: u32, remainder: u32)
    returns (quotient: u64, newRemainder: u32)
    requires divisor != 0
    ensures quotient == Or64(dividend, Shl64(remainder, 32)) / divisor
    ensures newRemainder == Or64(dividend, Shl64(remainder, 32)) % divisor
    ensures newRemainder < divisor
    ensures dividend < TWO32 && remainder < divisor ==>
              quotient < TWO32 && Join(quotient, newRemainder, divisor) == Join(remainder, dividend, TWO32)
  {
    var combined := Or64(dividend, Shl64(remainder, 32));
    SplitBelow(combined, TWO64, divisor);
    newRemainder := combined % divisor;
    quotient := combined / divisor;
    if dividend < TWO32 && remainder < divisor {
      DigitsJoin(remainder, dividend);
      OrComm(dividend, Shl64(remainder, 32));
      LimbStep(combined, divisor, remainder, dividend);
    }
  }

  /** Dividing remainder * 2^32 + dividend, with remainder below the
      divisor, gives a quotient below 2^32. */
  lemma LimbStep(combined: nat, divisor: nat, remainder: nat, dividend: nat)
    requires remainder < divisor && dividend < TWO32
    requires combined == Join(remainder, dividend, TWO32)
    ensures combined / divisor < TWO32
    ensures Join(combined / divisor, combined % divisor, divisor) == combined
  {
    var quotient := combined / divisor;
    SplitBelow(combined, combined + 1, divisor);
    if quotient >= TWO32 {
      // then combined >= 2^32 * divisor > remainder * 2^32 + dividend
      MulMono(TWO32, quotient, divisor);
    }
  }

  /** Long division of the pair (dividendHi, dividendLo) by a nonzero 32-bit
      divisor, four 32-bit limbs from the most significant down, with the
      remainder carried from limb to limb. */
  method Div128By32(dividendHi: u64, dividendLo: u64, divisor: u32)
    returns (remainder: u32, quotientHi: u64, quotientLo: u64)
    requires divisor != 0
    ensures Value128(quotientHi, quotientLo) * divisor + remainder == Value128(dividendHi, dividendLo)
    ensures remainder < divisor
    ensures Value128(quotientHi, quotientLo) == Value128(dividendHi, dividendLo) / divisor
    ensures remainder == Value128(dividendHi, dividendLo) % divisor
  {
    var dividendDwords := [LoDword(dividendLo), HiDword(dividendLo), LoDword(dividendHi), HiDword(dividendHi)];
    remainder := 0;

    var q3, q2, q1, q0;
    ghost var r3, r2, r1;
    q3, remainder := DivWithReminder(dividendDwords[3], divisor, remainder);
    r3 := remainder;
    quotientHi := Shl64(q3, 32);
    q2, remainder := DivWithReminder(dividendDwords[2], divisor, remainder);
    r2 := remainder;
    quotientHi := Or64(quotientHi, q2);
    q1, remainder := DivWithReminder(dividendDwords[1], divisor, remainder);
    r1 := remainder;
    quotientLo := Shl64(q1, 32);
    q0, remainder := DivWithReminder(dividendDwords[0], divisor, remainder);
    quotientLo := Or64(quotientLo, q0);

    DigitsJoin(q3, q2);
    DigitsJoin(q1, q0);
    DwordSplit(dividendHi);
    DwordSplit(dividendLo);
    LongDivision4(divisor, dividendDwords[3], dividendDwords[2], dividendDwords[1], dividendDwords[0],
                  q3, q2, q1, q0, r3, r2, r1, remainder);
    DivModUnique(Value128(dividendHi, dividendLo), divisor, Value128(quotientHi, quotientLo), remainder);
  }

  /** Shifting a 32-bit quotient digit up by 32 and OR-ing in the next one
      loses nothing. */
  lemma DigitsJoin(hi: u64, lo: u64)
    requires hi < TWO32 && lo < TWO32
    ensures Or64(Shl64(hi, 32), lo) == Join(hi, lo, TWO32)
  {
    Pow2Constants();
    Shl64Exact(hi, 32);
    DivModUnique(hi * TWO32, TWO32, hi, 0);
    OrDisjoint(hi * TWO32, lo, 32);
  }

  /** Four exact limb steps make one exact 128-bit division. */
  lemma LongDivision4(divisor: nat, d3: nat, d2: nat, d1: nat, d0: nat,
                      q3: nat, q2: nat, q1: nat, q0: nat, r3: nat, r2: nat, r1: nat, r0: nat)
    requires Join(q3, r3, divisor) == Join(0, d3, TWO32)
    requires Join(q2, r2, divisor) == Join(r3, d2, TWO32)
    requires Join(q1, r1, divisor) == Join(r2, d1, TWO32)
    requires Join(q0, r0, divisor) == Join(r1, d0, TWO32)
    ensures (Join(q3, q2, TWO32) * TWO64 + Join(q1, q0, TWO32)) * divisor + r0
         == Join(d3, d2, TWO32) * TWO64 + Join(d1, d0, TWO32)
  {
    var B := TWO32;
    calc {
      (Join(q3, q2, B) * TWO64 + Join(q1, q0, B)) * divisor + r0;
    ==
      q3 * divisor * (B * TWO64) + q2 * divisor * TWO64 + q1 * divisor * B + (q0 * divisor + r0);
    ==
      q3 * divisor * (B * TWO64) + q2 * divisor * TWO64 + (q1 * divisor + r1) * B + d0;
    ==
      q3 * divisor * (B * TWO64) + (q2 * divisor + r2) * TWO64 + d1 * B + d0;
    ==
      (q3 * divisor + r3) * (B * TWO64) + d2 * TWO64 + d1 * B + d0;
    ==
      Join(d3, d2, B) * TWO64 + Join(d1, d0, B);
    }
  }

  // ---- shl128 ----

  /** Shifts the pair (hi, lo) left by one bit in place (here: returns the
      new pair) and returns the bit shifted out of the top, bit 127. */
  method Shl128(hi: u64, lo: u64) returns (carry: bool, newHi: u64, newLo: u64)
    ensures carry == (Value128(hi, lo) >= TWO127)
    ensures Value128(newHi, newLo) == (2 * Value128(hi, lo)) % TWO128
    ensures newLo % 2 == 0
  {
    carry := Shr64(hi, 63) != 0;
    newHi := Shl64(hi, 1);
    newHi := Add64(newHi, Shr64(lo, 63));
    newLo := Shl64(lo, 1);
    Shl128Exact(hi, lo, carry, newHi, newLo);
  }

  lemma Shl128Exact(hi: u64, lo: u64, carry: bool, newHi: u64, newLo: u64)
    requires carry == (Shr64(hi, 63) != 0)
    requires newHi == Add64(Shl64(hi, 1), Shr64(lo, 63)) && newLo == Shl64(lo, 1)
    ensures carry == (Value128(hi, lo) >= TWO127)
    ensures Value128(newHi, newLo) == (2 * Value128(hi, lo)) % TWO128
    ensures newLo % 2 == 0
  {
    Pow2Constants();
    var ht, lt := hi / TWO63, lo / TWO63;
    ShiftByOne(hi);
    ShiftByOne(lo);
    AddExact(Shl64(hi, 1), Shr64(lo, 63));
    var v := Value128(hi, lo);
    var v' := Value128(newHi, newLo);
    assert 2 * v == ht * TWO128 + v' by {
      assert hi == ht * TWO63 + hi % TWO63;
      assert lo == lt * TWO63 + lo % TWO63;
    }
    DivModUnique(2 * v, TWO128, ht, v');
    assert carry == (ht == 1);
    if ht == 1 {
      assert v >= hi * TWO64 >= TWO63 * TWO64;
    } else {
      JoinBelow(hi, lo, TWO63, TWO64);
    }
  }

  // ---- div128_64 ----

  /** Restoring binary long division of the pair (dividendHi, dividendLo) by
      a nonzero 64-bit divisor: 128 steps, each shifting the remainder and
      the pair left by one bit, moving the dividend's top bit into the
      remainder and subtracting the divisor when it fits. The bit shifted
      out of the remainder (`carry`) is taken into account, so the
      division is exact for every divisor, including those above 2^63. The
      quotient bits enter at the bottom of the pair as the dividend bits
      leave at the top. */
  method Div128By64(dividendHi: u64, dividendLo: u64, divisor: u64)
    returns (remainder: u64, quotientHi: u64, quotientLo: u64)
    requires divisor != 0
    ensures Value128(quotientHi, quotientLo) * divisor + remainder == Value128(dividendHi, dividendLo)
    ensures remainder < divisor
    ensures Value128(quotientHi, quotientLo) == Value128(dividendHi, dividendLo) / divisor
    ensures remainder == Value128(dividendHi, dividendLo) % divisor
  {
    ghost var n := Value128(dividendHi, dividendLo);
    var hi, lo := dividendHi, dividendLo;
    remainder := 0;
    // After i steps: the top i bits of n, read as the number h, have been
    // divided (h == q * divisor + remainder); the remaining low bits l of n
    // sit at the top of the pair, above the i quotient bits q.
    ghost var h: nat, l: nat, q: nat := 0, n, 0;
    Pow2Constants();
    for i := 0 to 128
      invariant remainder < divisor
      invariant n == Join(h, l, Pow2(128 - i)) && l < Pow2(128 - i)
      invariant Value128(hi, lo) == Join(l, q, Pow2(i)) && q < Pow2(i)
      invariant h == Join(q, remainder, divisor)
    {
      ghost var bit, l' := TopBit(Value128(hi, lo), l, q, i);
      ghost var oldRemainder := remainder;
      remainder, hi, lo := DivStep(remainder, hi, lo, divisor);
      QuotientStep(h, q, oldRemainder, divisor, bit);
      HighPartStep(n, h, l, bit, l', i);
      q := if 2 * oldRemainder + bit >= divisor then 2 * q + 1 else 2 * q;
      h, l := 2 * h + bit, l';
    }
    quotientHi, quotientLo := hi, lo;
    DivModUnique(n, divisor, Value128(hi, lo), remainder);
  }

  /** One iteration of the loop of div128_64: the remainder and the pair
      are shifted left together, the top bit of the pair entering the
      remainder; when the doubled remainder t reaches the divisor, the
      divisor is subtracted and a 1 is set as the new low quotient bit. */
  method DivStep(remainder: u64, hi: u64, lo: u64, divisor: u64)
    returns (newRemainder: u64, newHi: u64, newLo: u64)
    requires remainder < divisor
    ensures var t := 2 * remainder + (if Value128(hi, lo) >= TWO127 then 1 else 0);
            (t >= divisor ==>
               newRemainder == t - divisor && Value128(newHi, newLo) == (2 * Value128(hi, lo)) % TWO128 + 1)
            && (t < divisor ==>
               newRemainder == t && Value128(newHi, newLo) == (2 * Value128(hi, lo)) % TWO128)
    ensures newRemainder < divisor
  {
    var carry := Shr64(remainder, 63) != 0;
    newRemainder := Shl64(remainder, 1);
    var shiftedOut;
    shiftedOut, newHi, newLo := Shl128(hi, lo);
    if shiftedOut {
      newRemainder := Or64(newRemainder, 1);
    }
    RemainderStep(remainder, divisor, if shiftedOut then 1 else 0, carry, newRemainder);
    if carry || newRemainder >= divisor {
      newRemainder := Sub64(newRemainder, divisor);
      LowBitSet(newLo);
      newLo := Or64(newLo, 1);
    }
  }

  /** The top bit of the pair is the top bit of the undivided low part l;
      shifting the pair drops it and doubles the quotient bits. */
  lemma TopBit(v: nat, l: nat, q: nat, i: nat) returns (bit: nat, l': nat)
    requires i < 128 && v == Join(l, q, Pow2(i)) && l < Pow2(128 - i) && q < Pow2(i)
    ensures bit <= 1 && l' < Pow2(127 - i) && l == Join(bit, l', Pow2(127 - i))
    ensures (v >= TWO127) == (bit == 1)
    ensures (2 * v) % TWO128 == Join(l', 2 * q, Pow2(i + 1)) && Pow2(i + 1) == 2 * Pow2(i)
  {
    Pow2Constants();
    var p, p' := Pow2(i), Pow2(127 - i);
    assert Pow2(128 - i) == 2 * p';
    assert Pow2(i + 1) == 2 * p;
    Pow2Add(127 - i, i);
    assert p' * p == TWO127;
    var x;
    bit, l', x := SplitTop(v, l, q, p, p');
    DivModUnique(2 * v, TWO128, bit, 2 * x);
  }

  /** v == l * p + q with l below 2 * p' and q below p: the top bit of l is
      the bit of v at p' * p. */
  lemma SplitTop(v: nat, l: nat, q: nat, p: nat, p': nat) returns (bit: nat, l': nat, x: nat)
    requires p >= 1 && p' >= 1 && v == Join(l, q, p) && l < 2 * p' && q < p
    ensures bit <= 1 && l' < p' && l == Join(bit, l', p')
    ensures x == Join(l', q, p) && x < p' * p && v == bit * (p' * p) + x
    ensures 2 * x == Join(l', 2 * q, 2 * p)
  {
    SplitBelow(l, 2, p');
    bit, l' := l / p', l % p';
    x := Join(l', q, p);
    JoinBelow(l', q, p', p);
    assert v == (bit * p' + l') * p + q;
  }

  /** The remainder doubled, with the dividend bit shifted in, computed in
      64 bits: the bit lost off the top (`carry`) makes the comparison with
      the divisor and the wrapping subtraction exact. */
  lemma RemainderStep(rem: u64, divisor: u64, bit: nat, carry: bool, shifted: u64)
    requires rem < divisor && bit <= 1
    requires carry == (Shr64(rem, 63) != 0)
    requires shifted == if bit == 1 then Or64(Shl64(rem, 1), 1) else Shl64(rem, 1)
    ensures (carry || shifted >= divisor) == (2 * rem + bit >= divisor)
    ensures 2 * rem + bit >= divisor ==> Sub64(shifted, divisor) == 2 * rem + bit - divisor
    ensures 2 * rem + bit < divisor ==> shifted == 2 * rem + bit
  {
    RemainderShift(rem, bit, carry, shifted);
    if 2 * rem + bit >= divisor {
      DivModUnique(shifted - divisor, TWO64, if carry then -1 else 0, 2 * rem + bit - divisor);
    }
  }

  /** The shifted remainder with the bit OR-ed in is 2 * rem + bit less the
      bit lost off the top. */
  lemma RemainderShift(rem: u64, bit: nat, carry: bool, shifted: u64)
    requires bit <= 1
    requires carry == (Shr64(rem, 63) != 0)
    requires shifted == if bit == 1 then Or64(Shl64(rem, 1), 1) else Shl64(rem, 1)
    ensures carry == (rem >= TWO63)
    ensures shifted == 2 * rem + bit - (if carry then TWO64 else 0)
  {
    Pow2Constants();
    var s := Shl64(rem, 1);
    ShiftByOne(rem);
    if bit == 1 {
      assert s % Pow2(1) == 0;
      OrDisjoint(s, 1, 1);
    }
  }

  /** A one-bit shift of a 64-bit word: `x >> 63` is its top bit and
      `x << 1` drops that bit and doubles the rest. */
  lemma ShiftByOne(x: u64)
    ensures Shr64(x, 63) == x / TWO63 && x / TWO63 == (if x >= TWO63 then 1 else 0)
    ensures x == (x / TWO63) * TWO63 + x % TWO63
    ensures Shl64(x, 1) == 2 * (x % TWO63) == 2 * x - (if x >= TWO63 then TWO64 else 0)
  {
    Pow2Constants();
    if x >= TWO63 {
      DivModUnique(x, TWO63, 1, x - TWO63);
      DivModUnique(2 * x, TWO64, 1, 2 * x - TWO64);
    } else {
      DivModUnique(x, TWO63, 0, x);
      DivModUnique(2 * x, TWO64, 0, 2 * x);
    }
  }

  /** Doubling h == q * divisor + rem and adding a bit. */
  lemma QuotientStep(h: nat, q: nat, rem: nat, divisor: nat, bit: nat)
    requires h == Join(q, rem, divisor)
    ensures 2 * h + bit == Join(2 * q, 2 * rem + bit, divisor)
    ensures 2 * rem + bit >= divisor ==> 2 * h + bit == Join(2 * q + 1, 2 * rem + bit - divisor, divisor)
  {
  }

  /** Moving the top bit of the low part l into the high part h. */
  lemma HighPartStep(n: nat, h: nat, l: nat, bit: nat, l': nat, i: nat)
    requires i < 128
    requires n == Join(h, l, Pow2(128 - i)) && l == Join(bit, l', Pow2(127 - i))
    ensures n == Join(2 * h + bit, l', Pow2(127 - i))
  {
    var p' := Pow2(127 - i);
    assert Pow2(128 - i) == 2 * p';
    assert n == h * (2 * p') + bit * p' + l';
  }

  /** The low bit of an even word is clear, so OR-ing 1 in adds 1. */
  lemma LowBitSet(lo: u64)
    requires lo % 2 == 0
    ensures Or64(lo, 1) == lo + 1
  {
    Pow2Constants();
    OrDisjoint(lo, 1, 1);
  }
}
