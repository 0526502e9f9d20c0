/** The portable rotate-left routines of int-util.h. The shift amount is a
    signed C `int`; masking it with `& 31` (or `& 63`) keeps its low bits,
    which on a two's-complement value is its Euclidean remainder, written
    `%` here. */
module Rotate {
  import opened Words

  /** C's `int`. */
  type int32 = r: int | -0x8000_0000 <= r < 0x8000_0000

  /** A w-bit word rotated left by k < w: its low w - k bits move up by k and
      its top k bits wrap around to the bottom. */
  ghost function Rotated(x: nat, w: nat, k: nat): nat
    requires k < w
  {
    var p := Pow2(w - k);
    DivNonneg(x, p);
    Join(x % p, x / p, Pow2(k))
  }

  /** `(x << (r & 31)) | (x >> (-r & 31))`. Both shift amounts stay below 32
      (the shift operators require it), the OR of the two halves loses
      nothing, and the result is the rotation by r mod 32; rotating by a
      multiple of 32 returns x. (For r == INT_MIN, C's `-r` overflows; on a
      two's-complement machine its low bits are still those of the exact
      negation, which is what is modelled.) */
  function Rol32(x: u32, r: int32): (y: u32)
    ensures y == Rotated(x, 32, r % 32)
    ensures r % 32 == 0 ==> y == x
  {
    NegMod(r, 32);
    Pow2Constants();
    RotateParts(x, 32, r % 32);
    Or32(Shl32(x, r % 32), Shr32(x, (-(r as int)) % 32))
  }

  /** `(x << (r & 63)) | (x >> (-r & 63))`: the rotation by r mod 64. */
  function Rol64(x: u64, r: int32): (y: u64)
    ensures y == Rotated(x, 64, r % 64)
    ensures r % 64 == 0 ==> y == x
  {
    NegMod(r, 64);
    Pow2Constants();
    RotateParts(x, 64, r % 64);
    Or64(Shl64(x, r % 64), Shr64(x, (-(r as int)) % 64))
  }

  /** The two shifted halves of a rotation occupy disjoint bits, so their OR
      is the rotation; with k == 0 both halves are x itself. */
  lemma RotateParts(x: nat, w: nat, k: nat)
    requires k < w && x < Pow2(w)
    ensures Or((x * Pow2(k)) % Pow2(w), x / Pow2(if k == 0 then 0 else w - k)) == Rotated(x, w, k)
    ensures Rotated(x, w, k) < Pow2(w)
    ensures k == 0 ==> Rotated(x, w, k) == x
  {
    if k == 0 {
      DivModUnique(x, Pow2(w), 0, x);
      OrSelf(x);
    } else {
      var p, q := Pow2(w - k), Pow2(k);
      Pow2Add(w - k, k);
      ShlLow(x, w, k);
      var a, b := Split(x, w, k);
      DivModUnique(b * q, q, b, 0);
      OrDisjoint(b * q, a, k);
      JoinBelow(b, a, p, q);
    }
  }

  /** x split into its top k bits a and its low w - k bits b. */
  lemma Split(x: nat, w: nat, k: nat) returns (a: nat, b: nat)
    requires 0 < k < w && x < Pow2(w)
    ensures a == x / Pow2(w - k) && b == x % Pow2(w - k)
    ensures a < Pow2(k) && b < Pow2(w - k)
    ensures x == Join(a, b, Pow2(w - k))
    ensures Rotated(x, w, k) == Join(b, a, Pow2(k))
  {
    Pow2Add(k, w - k);
    SplitBelow(x, Pow2(k), Pow2(w - k));
    a, b := x / Pow2(w - k), x % Pow2(w - k);
  }

  /** Rotating by k and then by w - k restores the word. */
  lemma {:induction false} RotatedInverse(x: nat, w: nat, k: nat)
    requires k < w && x < Pow2(w)
    ensures Rotated(Rotated(x, w, k), w, if k == 0 then 0 else w - k) == x
  {
    RotateParts(x, w, k);
    if k == 0 {
      RotateParts(x, w, 0);
    } else {
      var a, b := Split(x, w, k);
      var y := Rotated(x, w, k);
      assert w - (w - k) == k;
      var b', a' := Split(y, w, w - k);
      DivModUnique(y, Pow2(k), b, a);
    }
  }

  /** Rotating left by r and then by -r restores the word. */
  lemma Rol32Inverse(x: u32, r: int32)
    requires r != -0x8000_0000
    ensures Rol32(Rol32(x, r), -r) == x
  {
    Pow2Constants();
    NegMod(r, 32);
    RotatedInverse(x, 32, r % 32);
  }

  lemma Rol64Inverse(x: u64, r: int32)
    requires r != -0x8000_0000
    ensures Rol64(Rol64(x, r), -r) == x
  {
    Pow2Constants();
    NegMod(r, 64);
    RotatedInverse(x, 64, r % 64);
  }
}
