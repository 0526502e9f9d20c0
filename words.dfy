/** Fixed-width unsigned words as bounded naturals, with the C operators that
    int-util.h applies to them: wrapping `+`, `-`, `*`, the shifts, and the
    bitwise `|` and `&`, the last two defined bit by bit. */
module Words {

  const TWO32: nat := 0x1_0000_0000
  const TWO63: nat := 0x8000_0000_0000_0000
  const TWO64: nat := 0x1_0000_0000_0000_0000
  const TWO127: nat := 0x8000_0000_0000_0000_0000_0000_0000_0000
  const TWO128: nat := 0x1_0000_0000_0000_0000_0000_0000_0000_0000

  /** C's uint32_t and uint64_t. */
  type u32 = x: nat | x < TWO32
  type u64 = x: nat | x < TWO64

  function Pow2(k: nat): (p: nat)
    ensures p >= 1
  {
    if k == 0 then 1 else 2 * Pow2(k - 1)
  }

  lemma {:induction false} Pow2Add(a: nat, b: nat)
    ensures Pow2(a + b) == Pow2(a) * Pow2(b)
  {
    if a > 0 {
      Pow2Add(a - 1, b);
      assert Pow2(a + b) == 2 * Pow2(a - 1 + b);
    }
  }

  lemma Pow2Constants()
    ensures Pow2(1) == 2 && Pow2(32) == TWO32 && Pow2(63) == TWO63
    ensures Pow2(64) == TWO64 && Pow2(127) == TWO127 && Pow2(128) == TWO128
  {
    Pow2Of32();
    Pow2Add(32, 31);
    Pow2Add(32, 32);
    Pow2Add(64, 63);
    Pow2Add(64, 64);
  }

  lemma Pow2Of32()
    ensures Pow2(31) == TWO32 / 2 && Pow2(32) == TWO32
  {
    assert Pow2(8) == 256;
    Pow2Add(8, 8);
    Pow2Add(16, 8);
    Pow2Add(24, 7);
    Pow2Add(16, 16);
  }

  /** Division and remainder are determined by any exact decomposition. */
  lemma DivModUnique(v: int, m: int, q: int, r: int)
    requires 0 <= r < m && v == q * m + r
    ensures v / m == q && v % m == r
  {
    var q', r' := v / m, v % m;
    assert v == q' * m + r';
    assert 0 <= r' < m;
    if q' > q {
      assert (q' - q) * m == q' * m - q * m;
      MulAtLeast(q' - q, m);
    } else if q' < q {
      assert (q - q') * m == q * m - q' * m;
      MulAtLeast(q - q', m);
    }
  }

  /** The remainder of -r is the complement of the remainder of r. */
  lemma NegMod(r: int, m: int)
    requires m > 0
    ensures (-r) % m == if r % m == 0 then 0 else m - r % m
  {
    var q, t := r / m, r % m;
    assert r == q * m + t;
    if t == 0 {
      assert -r == (-q) * m;
      DivModUnique(-r, m, -q, 0);
    } else {
      assert -r == (-q - 1) * m + (m - t);
      DivModUnique(-r, m, -q - 1, m - t);
    }
  }

  lemma MulAtLeast(k: nat, m: nat)
    requires k >= 1
    ensures k * m >= m
  {
    assert k * m == (k - 1) * m + m;
  }

  // ---- Bitwise operators on naturals ----

  /** Bitwise OR, one bit per recursive step from the least significant end. */
  function Or(a: nat, b: nat): (r: nat)
    decreases a + b
  {
    if a == 0 && b == 0 then 0
    else 2 * Or(a / 2, b / 2) + (if a % 2 == 1 || b % 2 == 1 then 1 else 0)
  }

  /** Bitwise AND, one bit per recursive step from the least significant end. */
  function And(a: nat, b: nat): (r: nat)
    decreases a + b
  {
    if a == 0 || b == 0 then 0
    else 2 * And(a / 2, b / 2) + (if a % 2 == 1 && b % 2 == 1 then 1 else 0)
  }

  /** OR keeps values of k bits within k bits. */
  lemma {:induction false} OrBound(a: nat, b: nat, k: nat)
    requires a < Pow2(k) && b < Pow2(k)
    ensures Or(a, b) < Pow2(k)
    decreases k
  {
    if !(a == 0 && b == 0) {
      assert k > 0;
      OrBound(a / 2, b / 2, k - 1);
    }
  }

  /** OR of a value whose low k bits are clear with a value below 2^k adds
      them: no bit is lost. */
  lemma {:induction false} OrDisjoint(a: nat, b: nat, k: nat)
    requires a % Pow2(k) == 0 && b < Pow2(k)
    ensures Or(a, b) == a + b
    decreases a + b
  {
    if a == 0 && b == 0 {
    } else if k == 0 {
      assert b == 0;
      OrZero(a);
    } else {
      var p := Pow2(k - 1);
      assert a % 2 == 0 by {
        DivModUnique(a, 2, (a / Pow2(k)) * p, 0);
      }
      assert (a / 2) % p == 0 by {
        DivModUnique(a / 2, p, a / Pow2(k), 0);
      }
      OrDisjoint(a / 2, b / 2, k - 1);
    }
  }

  lemma {:induction false} OrComm(a: nat, b: nat)
    ensures Or(a, b) == Or(b, a)
    decreases a + b
  {
    if !(a == 0 && b == 0) {
      OrComm(a / 2, b / 2);
    }
  }

  lemma {:induction false} OrZero(a: nat)
    ensures Or(a, 0) == a
    decreases a
  {
    if a != 0 {
      OrZero(a / 2);
    }
  }

  /** AND with the mask 2^k - 1 keeps exactly the low k bits. */
  lemma {:induction false} AndLowMask(v: nat, k: nat)
    ensures And(v, Pow2(k) - 1) == v % Pow2(k)
    decreases k
  {
    if k == 0 {
    } else if v == 0 {
    } else {
      var p := Pow2(k - 1);
      var m := Pow2(k) - 1;
      assert m == 2 * (p - 1) + 1;
      assert m / 2 == p - 1 && m % 2 == 1;
      AndLowMask(v / 2, k - 1);
      ModDouble(v, p);
    }
  }

  /** The low bit and the next k bits make up the low k + 1 bits. */
  lemma ModDouble(v: nat, p: nat)
    requires p >= 1
    ensures v % (2 * p) == 2 * ((v / 2) % p) + v % 2
  {
    var q, r := v / 2 / p, (v / 2) % p;
    var rr := 2 * r + v % 2;
    assert v / 2 == q * p + r;
    assert v == q * (2 * p) + rr;
    assert 0 <= rr < 2 * p;
    DivModUnique(v, 2 * p, q, rr);
  }

  /** OR of a value with itself is that value. */
  lemma {:induction false} OrSelf(a: nat)
    ensures Or(a, a) == a
    decreases a
  {
    if a != 0 {
      OrSelf(a / 2);
    }
  }

  lemma DivNonneg(x: nat, q: nat)
    requires q >= 1
    ensures 0 <= x / q <= x && 0 <= x % q < q
  {
    MulAtLeast(q, x / q);
  }

  lemma SplitBelow(x: nat, p: nat, q: nat)
    requires q >= 1 && x < p * q
    ensures x == (x / q) * q + x % q
    ensures 0 <= x / q < p && 0 <= x % q < q
  {
    if x / q >= p {
      MulMono(p, x / q, q);
    }
  }

  lemma MulMono(a: nat, b: nat, c: nat)
    requires a <= b
    ensures a * c <= b * c
  {
    assert b * c == a * c + (b - a) * c;
  }

  /** Shifting a w-bit value left by k within w bits keeps its low w - k bits. */
  lemma ShlLow(x: nat, w: nat, k: nat)
    requires k <= w && x < Pow2(w)
    ensures (x * Pow2(k)) % Pow2(w) == (x % Pow2(w - k)) * Pow2(k)
    ensures (x % Pow2(w - k)) * Pow2(k) < Pow2(w)
  {
    Pow2Add(w - k, k);
    ShlBelow(x, Pow2(w - k), Pow2(k));
  }

  lemma ShlBelow(x: nat, p: nat, q: nat)
    requires p >= 1 && q >= 1 && x < p * q
    ensures (x * q) % (p * q) == (x % p) * q
    ensures (x % p) * q < p * q
  {
    var a, b := x / p, x % p;
    assert x == a * p + b;
    assert x * q == a * (p * q) + b * q by {
      assert x * q == (a * p + b) * q;
    }
    MulMono(b, p - 1, q);
    assert (p - 1) * q == p * q - q;
    DivModUnique(x * q, p * q, a, b * q);
  }

  // ---- C operators on uint32_t / uint64_t ----

  /** `x << k` on uint32_t: the bits shifted past bit 31 are dropped. */
  function Shl32(x: u32, k: nat): (r: u32)
    requires k < 32
  {
    (x * Pow2(k)) % TWO32
  }

  /** `x >> k` on uint32_t. */
  function Shr32(x: u32, k: nat): (r: u32)
    requires k < 32
  {
    DivNonneg(x, Pow2(k));
    x / Pow2(k)
  }

  function Or32(x: u32, y: u32): (r: u32) {
    Pow2Constants();
    OrBound(x, y, 32);
    Or(x, y)
  }

  function Add64(x: u64, y: u64): (r: u64) { (x + y) % TWO64 }

  /** Unsigned subtraction wraps modulo 2^64 (Dafny's % is Euclidean). */
  function Sub64(x: u64, y: u64): (r: u64) { (x - y) % TWO64 }

  function Mul64(x: u64, y: u64): (r: u64) { (x * y) % TWO64 }

  /** `x << k` on uint64_t: the bits shifted past bit 63 are dropped. */
  function Shl64(x: u64, k: nat): (r: u64)
    requires k < 64
  {
    (x * Pow2(k)) % TWO64
  }

  /** `x >> k` on uint64_t. */
  function Shr64(x: u64, k: nat): (r: u64)
    requires k < 64
  {
    DivNonneg(x, Pow2(k));
    x / Pow2(k)
  }

  function Or64(x: u64, y: u64): (r: u64) {
    Pow2Constants();
    OrBound(x, y, 64);
    Or(x, y)
  }

  function And64(x: u64, y: u64): (r: u64) {
    AndBoundBy(x, y);
    And(x, y)
  }

  lemma {:induction false} AndBoundBy(a: nat, b: nat)
    ensures And(a, b) <= b
    decreases a + b
  {
    if a != 0 && b != 0 {
      AndBoundBy(a / 2, b / 2);
    }
  }

  /** The number whose bits are those of hi placed above a low part lo
      that is below q. */
  function Join(hi: nat, lo: nat, q: nat): (v: nat) {
    hi * q + lo
  }

  /** Join(b, a, q) stays below p * q when b < p and a < q. */
  lemma JoinBelow(b: nat, a: nat, p: nat, q: nat)
    requires b < p && a < q
    ensures Join(b, a, q) < p * q
  {
    MulMono(b, p - 1, q);
    assert (p - 1) * q == p * q - q;
  }

  /** An extended integer: a 128-bit unsigned value as a (high, low) pair of
      64-bit words. */
  datatype U128 = U128(hi: u64, lo: u64)

  /** An exact (hi, lo) pair denotes hi * 2^64 + lo. */
  function Value128(hi: u64, lo: u64): (v: nat)
    ensures v < TWO128
  {
    JoinBelow(hi, lo, TWO64, TWO64);
    Join(hi, lo, TWO64)
  }
}
