/** Fixed-width integers and their byte layout.

    The C code copies integers to and from the wire with memcpy, so the layout
    is the host's. The model fixes one byte order, little-endian, for every
    encoder and decoder alike. */
module Bytes {

  type byte = x: int | 0 <= x < 0x100
  type u16 = x: int | 0 <= x < 0x1_0000
  type u32 = x: int | 0 <= x < 0x1_0000_0000
  type u64 = x: int | 0 <= x < 0x1_0000_0000_0000_0000
  type i32 = x: int | -0x8000_0000 <= x < 0x8000_0000

  /** 256 to the power w: one more than the largest value w bytes hold. */
  function Pow256(w: nat): (r: nat)
    ensures r > 0
  {
    if w == 0 then 1 else 256 * Pow256(w - 1)
  }

  /** The w-byte little-endian image of n (memcpy of a w-byte integer). */
  function LE(n: nat, w: nat): (r: seq<byte>)
    requires n < Pow256(w)
    ensures |r| == w
  {
    if w == 0 then [] else [n % 256] + LE(n / 256, w - 1)
  }

  /** The integer whose little-endian image is s (memcpy into an integer). */
  function FromLE(s: seq<byte>): (n: nat)
    ensures n < Pow256(|s|)
  {
    if s == [] then 0 else s[0] + 256 * FromLE(s[1..])
  }

  lemma {:induction false} FromLEOfLE(n: nat, w: nat)
    requires n < Pow256(w)
    ensures FromLE(LE(n, w)) == n
  {
    if w > 0 {
      assert n / 256 < Pow256(w - 1);
      FromLEOfLE(n / 256, w - 1);
      assert LE(n, w)[1..] == LE(n / 256, w - 1);
    }
  }

  lemma {:induction false} LEOfFromLE(s: seq<byte>)
    ensures LE(FromLE(s), |s|) == s
  {
    if s != [] {
      LEOfFromLE(s[1..]);
      assert (s[0] + 256 * FromLE(s[1..])) / 256 == FromLE(s[1..]);
    }
  }

  /** Decoding the first 2, 4 or 8 bytes of an encoding followed by anything. */
  lemma FromLEPrefix(n: nat, w: nat, rest: seq<byte>)
    requires n < Pow256(w)
    ensures (LE(n, w) + rest)[..w] == LE(n, w)
    ensures FromLE((LE(n, w) + rest)[..w]) == n
  {
    assert (LE(n, w) + rest)[..w] == LE(n, w);
    FromLEOfLE(n, w);
  }

  lemma Pow256Values()
    ensures Pow256(1) == 0x100 && Pow256(2) == 0x1_0000
    ensures Pow256(4) == 0x1_0000_0000
    ensures Pow256(8) == 0x1_0000_0000_0000_0000
  {
  }

  /** The two's-complement value of a 32-bit pattern (an int32_t read from memory). */
  function ToInt32(x: u32): (r: int)
    ensures -0x8000_0000 <= r < 0x8000_0000
    ensures r >= 0 <==> x < 0x8000_0000
    ensures r % 0x1_0000_0000 == x
  {
    if x < 0x8000_0000 then x else x - 0x1_0000_0000
  }

  /** The 32-bit pattern of an int32_t. */
  function FromInt32(v: int): (r: u32)
    requires -0x8000_0000 <= v < 0x8000_0000
    ensures ToInt32(r) == v
  {
    if v >= 0 then v else v + 0x1_0000_0000
  }

  /** What a C string holding the bytes s compares and copies as: the bytes
      before the first NUL (strcmp, strdup, strlen all stop there). */
  function CStr(s: seq<byte>): (r: seq<byte>)
    ensures 0 !in r
    ensures r <= s
    ensures |r| < |s| ==> s[|r|] == 0
    ensures 0 !in s ==> r == s
  {
    if s == [] || s[0] == 0 then [] else [s[0]] + CStr(s[1..])
  }
}
