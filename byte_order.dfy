/** The byte-order routines of int-util.h on 32- and 64-bit words, here
    bit-vectors: the identity and byte-swap conversions, the SWAP32 and
    SWAP64 macros, and the loops that apply a conversion to every word of a
    buffer, in place or from one buffer into another. A word's bytes are
    listed least significant first, which is its layout in memory on a
    little-endian host. */
module ByteOrder {

  /** The bytes of a 32-bit word, least significant first. */
  function Bytes32(x: bv32): (b: seq<bv8>)
    ensures |b| == 4
  {
    [(x & 0xff) as bv8, ((x >> 8) & 0xff) as bv8, ((x >> 16) & 0xff) as bv8, (x >> 24) as bv8]
  }

  /** The bytes of a 64-bit word, least significant first. */
  function Bytes64(x: bv64): (b: seq<bv8>)
    ensures |b| == 8
  {
    [(x & 0xff) as bv8, ((x >> 8) & 0xff) as bv8, ((x >> 16) & 0xff) as bv8, ((x >> 24) & 0xff) as bv8,
     ((x >> 32) & 0xff) as bv8, ((x >> 40) & 0xff) as bv8, ((x >> 48) & 0xff) as bv8, (x >> 56) as bv8]
  }

  // ---- single words ----

  /** IDENT32 and ident32: the conversion that leaves a word as it is. */
  function Ident32(x: bv32): (r: bv32)
    ensures Bytes32(r) == Bytes32(x)
  {
    x
  }

  /** IDENT64 and ident64. */
  function Ident64(x: bv64): (r: bv64)
    ensures Bytes64(r) == Bytes64(x)
  {
    x
  }

  /** The SWAP32 macro: each of the four bytes is masked out and shifted to
      the mirrored position, and the four are OR-ed together. */
  function Swap32Macro(x: bv32): (r: bv32) {
    ((x & 0x0000_00ff) << 24) | ((x & 0x0000_ff00) << 8)
      | ((x & 0x00ff_0000) >> 8) | ((x & 0xff00_0000) >> 24)
  }

  /** The SWAP64 macro, with eight masked bytes. */
  function Swap64Macro(x: bv64): (r: bv64) {
    ((x & 0x0000_0000_0000_00ff) << 56) | ((x & 0x0000_0000_0000_ff00) << 40)
      | ((x & 0x0000_0000_00ff_0000) << 24) | ((x & 0x0000_0000_ff00_0000) << 8)
      | ((x & 0x0000_00ff_0000_0000) >> 8) | ((x & 0x0000_ff00_0000_0000) >> 24)
      | ((x & 0x00ff_0000_0000_0000) >> 40) | ((x & 0xff00_0000_0000_0000) >> 56)
  }

  /** swap32: adjacent bytes are exchanged, then the two 16-bit halves. */
  function Swap32(x: bv32): (r: bv32) {
    var y := ((x & 0x00ff_00ff) << 8) | ((x & 0xff00_ff00) >> 8);
    (y << 16) | (y >> 16)
  }

  /** swap64: adjacent bytes are exchanged, then adjacent 16-bit halves,
      then the two 32-bit halves. */
  function Swap64(x: bv64): (r: bv64) {
    var y := ((x & 0x00ff_00ff_00ff_00ff) << 8) | ((x & 0xff00_ff00_ff00_ff00) >> 8);
    var z := ((y & 0x0000_ffff_0000_ffff) << 16) | ((y & 0xffff_0000_ffff_0000) >> 16);
    (z << 32) | (z >> 32)
  }

  /** swap32 lists the bytes of its argument in reverse order: it converts
      between little- and big-endian layouts. */
  lemma Swap32Bytes(x: bv32)
    ensures var b := Bytes32(x); Bytes32(Swap32(x)) == [b[3], b[2], b[1], b[0]]
  {
    var b, c := Bytes32(x), Bytes32(Swap32(x));
    assert c[0] == b[3];
    assert c[1] == b[2];
    assert c[2] == b[1];
    assert c[3] == b[0];
  }

  lemma Swap64Bytes(x: bv64)
    ensures var b := Bytes64(x); Bytes64(Swap64(x)) == [b[7], b[6], b[5], b[4], b[3], b[2], b[1], b[0]]
  {
    var b, c := Bytes64(x), Bytes64(Swap64(x));
    assert c[0] == b[7];
    assert c[1] == b[6];
    assert c[2] == b[5];
    assert c[3] == b[4];
    assert c[4] == b[3];
    assert c[5] == b[2];
    assert c[6] == b[1];
    assert c[7] == b[0];
  }

  /** The two-stage swap32 computes the same word as the SWAP32 macro. */
  lemma Swap32MatchesMacro(x: bv32)
    ensures Swap32(x) == Swap32Macro(x)
  {
  }

  lemma Swap64MatchesMacro(x: bv64)
    ensures Swap64(x) == Swap64Macro(x)
  {
  }

  /** Swapping twice restores the word. */
  lemma Swap32Involution(x: bv32)
    ensures Swap32(Swap32(x)) == x
  {
  }

  lemma Swap64Involution(x: bv64)
    ensures Swap64(Swap64(x)) == x
  {
  }

  // ---- buffers ----

  /** Every word of s swapped. */
  function SwapEach32(s: seq<bv32>): (r: seq<bv32>)
    ensures |r| == |s| && forall i :: 0 <= i < |s| ==> r[i] == Swap32(s[i])
  {
    if s == [] then [] else [Swap32(s[0])] + SwapEach32(s[1..])
  }

  function SwapEach64(s: seq<bv64>): (r: seq<bv64>)
    ensures |r| == |s| && forall i :: 0 <= i < |s| ==> r[i] == Swap64(s[i])
  {
    if s == [] then [] else [Swap64(s[0])] + SwapEach64(s[1..])
  }

  /** Swapping every word of a buffer twice restores the buffer, so the same
      routine converts to and from the other byte order. */
  lemma SwapEach32Involution(s: seq<bv32>)
    ensures SwapEach32(SwapEach32(s)) == s
  {
    var r := SwapEach32(SwapEach32(s));
    forall i | 0 <= i < |s|
      ensures r[i] == s[i]
    {
      Swap32Involution(s[i]);
    }
  }

  lemma SwapEach64Involution(s: seq<bv64>)
    ensures SwapEach64(SwapEach64(s)) == s
  {
    var r := SwapEach64(SwapEach64(s));
    forall i | 0 <= i < |s|
      ensures r[i] == s[i]
    {
      Swap64Involution(s[i]);
    }
  }

  /** mem_inplace_ident: the identity conversion of a buffer does nothing. */
  method MemInplaceIdent(mem: array<bv32>, n: nat)
    ensures mem[..] == old(mem[..])
  {
  }

  /** mem_inplace_swap32: swaps the first n words of mem in place. */
  method MemInplaceSwap32(mem: array<bv32>, n: nat)
    requires n <= mem.Length
    modifies mem
    ensures mem[..n] == SwapEach32(old(mem[..n]))
    ensures mem[n..] == old(mem[n..])
  {
    for i := 0 to n
      invariant forall j :: 0 <= j < i ==> mem[j] == Swap32(old(mem[j]))
      invariant forall j :: i <= j < mem.Length ==> mem[j] == old(mem[j])
    {
      mem[i] := Swap32(mem[i]);
    }
  }

  /** mem_inplace_swap64: swaps the first n words of mem in place. */
  method MemInplaceSwap64(mem: array<bv64>, n: nat)
    requires n <= mem.Length
    modifies mem
    ensures mem[..n] == SwapEach64(old(mem[..n]))
    ensures mem[n..] == old(mem[n..])
  {
    for i := 0 to n
      invariant forall j :: 0 <= j < i ==> mem[j] == Swap64(old(mem[j]))
      invariant forall j :: i <= j < mem.Length ==> mem[j] == old(mem[j])
    {
      mem[i] := Swap64(mem[i]);
    }
  }

  /** memcpy_ident32: copies the first n words of src into dst. It is a
      memcpy, whose buffers must not overlap. */
  method MemcpyIdent32(dst: array<bv32>, src: array<bv32>, n: nat)
    requires n <= dst.Length && n <= src.Length && dst != src
    modifies dst
    ensures dst[..n] == old(src[..n]) && dst[n..] == old(dst[n..])
    ensures src[..] == old(src[..])
  {
    forall i | 0 <= i < n {
      dst[i] := src[i];
    }
  }

  /** memcpy_ident64: copies the first n words of src into dst. */
  method MemcpyIdent64(dst: array<bv64>, src: array<bv64>, n: nat)
    requires n <= dst.Length && n <= src.Length && dst != src
    modifies dst
    ensures dst[..n] == old(src[..n]) && dst[n..] == old(dst[n..])
    ensures src[..] == old(src[..])
  {
    forall i | 0 <= i < n {
      dst[i] := src[i];
    }
  }

  /** memcpy_swap32: writes the swap of each of the first n words of src to
      the same position of dst. Word i of src is read before word i of dst
      is written and never after, so dst may be src itself, and then this
      is mem_inplace_swap32. */
  method MemcpySwap32(dst: array<bv32>, src: array<bv32>, n: nat)
    requires n <= dst.Length && n <= src.Length
    modifies dst
    ensures dst[..n] == SwapEach32(old(src[..n])) && dst[n..] == old(dst[n..])
    ensures dst != src ==> src[..] == old(src[..])
  {
    for i := 0 to n
      invariant forall j :: 0 <= j < i ==> dst[j] == Swap32(old(src[j]))
      invariant forall j :: i <= j < dst.Length ==> dst[j] == old(dst[j])
    {
      dst[i] := Swap32(src[i]);
    }
  }

  /** memcpy_swap64: the 64-bit counterpart of MemcpySwap32. */
  method MemcpySwap64(dst: array<bv64>, src: array<bv64>, n: nat)
    requires n <= dst.Length && n <= src.Length
    modifies dst
    ensures dst[..n] == SwapEach64(old(src[..n])) && dst[n..] == old(dst[n..])
    ensures dst != src ==> src[..] == old(src[..])
  {
    for i := 0 to n
      invariant forall j :: 0 <= j < i ==> dst[j] == Swap64(old(src[j]))
      invariant forall j :: i <= j < dst.Length ==> dst[j] == old(dst[j])
    {
      dst[i] := Swap64(src[i]);
    }
  }
}
