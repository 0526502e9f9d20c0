# Cryptonote integer utilities and consensus amounts, in Dafny

This project models two small headers of the TerraAustralis node.

The first is the CryptoNote integer utility header used by the GhostRider proof-of-work code. It has three groups of routines:

- Rotates of a 32- or 64-bit word.
- 128-bit arithmetic on (high, low) pairs of 64-bit words: splitting a word into 32-bit halves, the schoolbook 64 x 64 -> 128 multiply, base-2^32 long division by a 32-bit divisor, a one-bit left shift of a pair, and restoring binary division by a 64-bit divisor.
- Byte order: the identity and byte-swap conversions of a word, and the loops that convert a buffer in place or while copying it.

The second is the consensus amount header: the unit constants, the `MAX_MONEY` bound and the `MoneyRange` check.

The files:

- `words.dfy` (module `Words`): `uint32_t` and `uint64_t` as bounded naturals, with C's operators written out. `+`, `-` and `*` wrap modulo 2^64, and `<<` drops the bits shifted past the top. `|` and `&` are defined bit by bit, so "the OR loses nothing" is something the model proves, not something it assumes.
- `rotate.dfy` (module `Rotate`): `rol32` and `rol64`, as in the portable branch of the header.
- `wide_arith.dfy` (module `WideArith`): `hi_dword`, `lo_dword`, `mul128`, `div_with_reminder`, `div128_32`, `shl128` and `div128_64`.
  - `div_with_reminder`, `div128_32`, `shl128` and `div128_64`, which update state through pointers, are methods. A pointer that is read and written (`*remainder` of `div_with_reminder`, `*hi` and `*lo` of `shl128`) becomes an in-parameter plus an out-parameter. A pointer that is only written (`quotient_hi` and `quotient_lo` of the two divisions) becomes an out-parameter.
  - `hi_dword`, `lo_dword` and `mul128` are functions. `mul128` returns its high word, which the C routine stores through `product_hi`, together with the low word as a `U128` pair. Its exactness is stated by the lemma `Mul128Exact`.
  - The contracts of `HiDword`, `LoDword`, `Div128By32`, `Shl128` and `Div128By64`, and the lemma `Mul128Exact`, state the exact result over unbounded integers. `DivWithReminder` states its quotient and remainder for every input, and states that the limb step is exact when the limb is below 2^32 and the old remainder below the divisor, which is how `div128_32` calls it.
- `byte_order.dfy` (module `ByteOrder`): the byte-order routines on `bv32`/`bv64` words. Buffers are arrays of words.
- `amount.dfy` (module `Amount`): `CAmount`, `CENT`, `COIN`, `MAX_MONEY` and `MoneyRange`.

## Model

| member | source | states |
|---|---|---|
| `Rotate.Rol32` | src/crypto/ghostrider/cryptonote/int-util.h:35-37 | Both masked shift amounts are below 32. The OR of the two shifted halves is the left rotation of x by r mod 32, with r mod 32 taken as two's-complement masking. Rotating by a multiple of 32 returns x. |
| `Rotate.Rol64` | src/crypto/ghostrider/cryptonote/int-util.h:39-41 | The same as `Rol32`, for 64 bits and r mod 64. |
| `Rotate.Rol32Inverse` | src/crypto/ghostrider/cryptonote/int-util.h:35-37 | Rotating left by r and then by -r restores the word, for every r whose negation is an `int`. |
| `Rotate.Rol64Inverse` | src/crypto/ghostrider/cryptonote/int-util.h:39-41 | The same as `Rol32Inverse`, for `rol64`. |
| `Rotate.RotatedInverse` | src/crypto/ghostrider/cryptonote/int-util.h:35-41 | The reference rotation by k, followed by the rotation by w - k, is the identity on w-bit words. |
| `WideArith.HiDword` | src/crypto/ghostrider/cryptonote/int-util.h:45-47 | `val >> 32` is the quotient of val by 2^32, so it is below 2^32. |
| `WideArith.LoDword` | src/crypto/ghostrider/cryptonote/int-util.h:49-51 | `val & 0xFFFFFFFF` is the remainder of val by 2^32, so it is below 2^32. |
| `WideArith.DwordSplit` | src/crypto/ghostrider/cryptonote/int-util.h:45-51 | `hi_dword(v) * 2^32 + lo_dword(v) == v`. The halves are the quotient and the remainder of v by 2^32. |
| `WideArith.Mul128Exact` | src/crypto/ghostrider/cryptonote/int-util.h:53-77 | The (high, low) pair that `mul128` computes is exactly the product, `hi * 2^64 + lo == multiplier * multiplicand`. The runtime check `ac <= *product_hi` at line 74 always holds. |
| `WideArith.DivWithReminder` | src/crypto/ghostrider/cryptonote/int-util.h:79-83 | Quotient and new remainder are those of dividend OR-ed with `remainder << 32` by the divisor, and the new remainder is below the divisor. With a limb below 2^32 and an old remainder below the divisor, the quotient is below 2^32 and `quotient * divisor + newRemainder == remainder * 2^32 + dividend`. |
| `WideArith.DigitsJoin` | src/crypto/ghostrider/cryptonote/int-util.h:94-97 | Shifting a 32-bit quotient limb up by 32 and OR-ing in the next limb loses nothing: the result is `hi * 2^32 + lo`. |
| `WideArith.Div128By32` | src/crypto/ghostrider/cryptonote/int-util.h:86-101 | For a nonzero divisor, `(qhi * 2^64 + qlo) * divisor + r == hi * 2^64 + lo` and `r < divisor`. So the pair and `r` are the quotient and the remainder of the 128-bit dividend. |
| `WideArith.LongDivision4` | src/crypto/ghostrider/cryptonote/int-util.h:92-100 | Four exact limb steps, with the remainder carried from limb to limb, make one exact division of the four-limb dividend. |
| `WideArith.Shl128` | src/crypto/ghostrider/cryptonote/int-util.h:103-110 | The returned bit is bit 127 of the old pair. The new pair is `(2 * old) mod 2^128`, and its low bit is clear. |
| `WideArith.DivStep` | src/crypto/ghostrider/cryptonote/int-util.h:116-127 | One iteration of the `div128_64` loop. With t = 2 * remainder + bit 127 of the pair: if t reaches the divisor, the new remainder is `t - divisor` and the pair is `(2 * pair) mod 2^128 + 1`; otherwise the remainder is t and the pair is `(2 * pair) mod 2^128`. The bit lost in `carry` is accounted for. |
| `WideArith.RemainderStep` | src/crypto/ghostrider/cryptonote/int-util.h:118-126 | The test "carry, or remainder at least divisor" holds exactly when the doubled remainder t (computed without wrapping) reaches the divisor. The wrapping `remainder -= divisor` then yields exactly `t - divisor`. |
| `WideArith.Div128By64` | src/crypto/ghostrider/cryptonote/int-util.h:113-131 | For every nonzero divisor, including those above 2^63, `(qhi * 2^64 + qlo) * divisor + r == dividend` and `r < divisor`. So the pair and `r` are the quotient and the remainder. |
| `ByteOrder.Ident32` | src/crypto/ghostrider/cryptonote/int-util.h:149 | `ident32` leaves every byte of the word where it is. |
| `ByteOrder.Ident64` | src/crypto/ghostrider/cryptonote/int-util.h:150 | `ident64` leaves every byte of the word where it is. |
| `ByteOrder.Swap32Bytes` | src/crypto/ghostrider/cryptonote/int-util.h:152-155 | The bytes of `swap32(x)`, least significant first, are those of x in reverse order. |
| `ByteOrder.Swap64Bytes` | src/crypto/ghostrider/cryptonote/int-util.h:156-160 | The bytes of `swap64(x)` are those of x in reverse order. |
| `ByteOrder.Swap32MatchesMacro` | src/crypto/ghostrider/cryptonote/int-util.h:136-155 | The two-stage `swap32` computes the same word as the four-mask `SWAP32` macro. |
| `ByteOrder.Swap64MatchesMacro` | src/crypto/ghostrider/cryptonote/int-util.h:140-160 | The three-stage `swap64` computes the same word as the eight-mask `SWAP64` macro. |
| `ByteOrder.Swap32Involution` | src/crypto/ghostrider/cryptonote/int-util.h:152-155 | `swap32(swap32(x)) == x`. |
| `ByteOrder.Swap64Involution` | src/crypto/ghostrider/cryptonote/int-util.h:156-160 | `swap64(swap64(x)) == x`. |
| `ByteOrder.SwapEach32Involution` | src/crypto/ghostrider/cryptonote/int-util.h:170-175 | Swapping every word of a buffer twice restores the buffer, so one routine converts in both directions. |
| `ByteOrder.SwapEach64Involution` | src/crypto/ghostrider/cryptonote/int-util.h:176-181 | The same as `SwapEach32Involution`, for 64-bit words. |
| `ByteOrder.MemInplaceIdent` | src/crypto/ghostrider/cryptonote/int-util.h:167 | The identity conversion of a buffer changes nothing. |
| `ByteOrder.MemInplaceSwap32` | src/crypto/ghostrider/cryptonote/int-util.h:170-175 | Each of the first n words becomes the swap of its old value, and every later word is unchanged. |
| `ByteOrder.MemInplaceSwap64` | src/crypto/ghostrider/cryptonote/int-util.h:176-181 | The same as `MemInplaceSwap32`, for 64-bit words. |
| `ByteOrder.MemcpyIdent32` | src/crypto/ghostrider/cryptonote/int-util.h:183-185 | The first n words of dst become the first n words of src, the rest of dst is unchanged, and src is not modified. |
| `ByteOrder.MemcpyIdent64` | src/crypto/ghostrider/cryptonote/int-util.h:186-188 | The same as `MemcpyIdent32`, for 64-bit words. |
| `ByteOrder.MemcpySwap32` | src/crypto/ghostrider/cryptonote/int-util.h:190-195 | Word i of dst becomes the swap of the old word i of src for i < n, and the rest of dst is unchanged. This holds even when dst is src. A distinct src is not modified. |
| `ByteOrder.MemcpySwap64` | src/crypto/ghostrider/cryptonote/int-util.h:196-201 | The same as `MemcpySwap32`, for 64-bit words. |
| `Amount.Constants` | src/consensus/amount.h:15-27 | `MAX_MONEY == 84000000 * COIN == 8400000000000000`, which is positive and below the int64 maximum. `COIN == 100 * CENT`. |
| `Amount.MoneyRangeExact` | src/consensus/amount.h:28 | `MoneyRange(v)` holds if and only if `0 <= v <= 8400000000000000`. |
| `Amount.NegativeRejected` | src/consensus/amount.h:11-28 | No negative amount is in range, although `CAmount` is signed. |
| `Amount.Boundaries` | src/consensus/amount.h:27-28 | `MoneyRange(0)` and `MoneyRange(MAX_MONEY)` hold, and `MoneyRange(MAX_MONEY + 1)` does not. |
| `Amount.SumFits` | src/consensus/amount.h:18-28 | The sum of two in-range amounts cannot overflow int64: it lies between 0 and `2 * MAX_MONEY`. |

## Left out

- The MSVC branch of `rol32`/`rol64` (`_rotl`, `_rotl64`, lines 20-31 of int-util.h) calls compiler intrinsics. Only the portable branch is modelled.
- `Rotate.Rol32Inverse` and `Rotate.Rol64Inverse` exclude `r == INT_MIN`, because the inverse rotation by `-r` is not an `int` there.
  - Inside `rol32`/`rol64` themselves, `-r` overflows for `r == INT_MIN`, which C leaves undefined.
  - The model takes the low bits of the exact negation, which is what a two's-complement machine produces.
- Endianness selection by `#if`, platform headers and `void*` type punning are not modelled. Buffers are arrays of 32- or 64-bit words rather than raw memory, so a byte of a word is selected by shifting, not by addressing memory.
- `memcpy` is modelled by its effect, one simultaneous assignment of the first n words. Like `memcpy` itself, `MemcpyIdent32` and `MemcpyIdent64` require distinct buffers.
- Partial overlap of two buffers cannot be expressed with Dafny arrays, which are either the same object or disjoint. `MemcpySwap32`/`MemcpySwap64` cover the disjoint case and the case where dst is src.
- A zero divisor is excluded by a precondition (`divisor != 0`) in all three division routines, so the model says nothing about that input.
  - In `div_with_reminder`, and so in `div128_32`, it would be a C division by zero, which is undefined.
  - `div128_64` divides nothing: it only shifts, compares and subtracts. With divisor 0 the test at line 122 of int-util.h always holds, line 124 subtracts 0 and line 125 sets every quotient bit. Its result is then defined: quotient 2^128 - 1, and remainder equal to the original `dividend_lo`. `Div128By64` does not model this case.
- The runtime `assert` of `mul128` is proved to hold, so its abort path is not modelled.
- Two representations of words are used:
  - bounded naturals with explicit wrapping for the arithmetic routines;
  - bit-vectors for the byte-order routines.

  No lemma relates the two.
- `WideArith.Mul128`, `ByteOrder.Swap32`, `ByteOrder.Swap64` and the two macros only compute. Their properties are stated by the lemmas named in the table.
- src/qt/bitcoinaddressvalidator.h (Qt GUI declarations) and the GhostRider hash chaining are not part of this model.
