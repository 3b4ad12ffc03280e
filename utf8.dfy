/**
 * The parts of UTF-8 that the scanners rely on: the encoding of a Unicode
 * scalar value and the byte offset of each rune of a well-formed string.
 */
module Utf8 {
  import opened Types

  /** A Unicode scalar value: what ranging over a well-formed Go string yields. */
  type Rune = r: int | 0 <= r <= 0x10FFFF && !(0xD800 <= r <= 0xDFFF)

  /** Number of bytes of the UTF-8 encoding of `r`. */
  function RuneLen(r: Rune): (n: nat)
    ensures 1 <= n <= 4
    ensures n == 1 <==> r < 0x80
  {
    if r < 0x80 then 1 else if r < 0x800 then 2 else if r < 0x10000 then 3 else 4
  }

  /** The UTF-8 encoding of `r`. */
  function Encode(r: Rune): (e: seq<Byte>)
    ensures |e| == RuneLen(r)
    ensures r < 0x80 ==> e == [r]
    ensures r >= 0x80 ==> e[0] >= 0xC0 && forall k | 1 <= k < |e| :: 0x80 <= e[k] < 0xC0
  {
    if r < 0x80 then [r]
    else if r < 0x800 then [0xC0 + r / 64, 0x80 + r % 64]
    else if r < 0x10000 then [0xE0 + r / 4096, 0x80 + (r / 64) % 64, 0x80 + r % 64]
    else [0xF0 + r / 262144, 0x80 + (r / 4096) % 64, 0x80 + (r / 64) % 64, 0x80 + r % 64]
  }

  /**
   * The rune a well-formed encoding of one to four bytes stands for: the
   * payload bits of the lead byte followed by six bits from each
   * continuation byte.
   */
  function Decode(e: seq<Byte>): int
    requires 1 <= |e| <= 4
  {
    var b := seq(|e|, k requires 0 <= k < |e| => e[k] as int);
    if |b| == 1 then b[0]
    else if |b| == 2 then (b[0] - 0xC0) * 64 + (b[1] - 0x80)
    else if |b| == 3 then ((b[0] - 0xE0) * 64 + (b[1] - 0x80)) * 64 + (b[2] - 0x80)
    else (((b[0] - 0xF0) * 64 + (b[1] - 0x80)) * 64 + (b[2] - 0x80)) * 64 + (b[3] - 0x80)
  }

  /** Splitting off the low six bits and putting them back gives the number again. */
  lemma SixBits(x: nat)
    ensures x == (x / 64) * 64 + x % 64
    ensures (x / 64) / 64 == x / 4096 && (x / 4096) / 64 == x / 262144
  {
  }

  /** Decoding undoes encoding: the encoding of a rune determines the rune. */
  lemma DecodeEncode(r: Rune)
    ensures Decode(Encode(r)) == r
  {
    var e := Encode(r);
    SixBits(r);
    SixBits(r / 64);
    SixBits(r / 4096);
    if r < 0x80 {
    } else if r < 0x800 {
      assert Decode(e) == (r / 64) * 64 + r % 64;
    } else if r < 0x10000 {
      assert Decode(e) == ((r / 4096) * 64 + (r / 64) % 64) * 64 + r % 64;
    } else {
      assert Decode(e) == (((r / 262144) * 64 + (r / 4096) % 64) * 64 + (r / 64) % 64) * 64 + r % 64;
    }
  }

  /** The UTF-8 encoding of a sequence of runes: the bytes of a well-formed string. */
  function EncodeAll(rs: seq<Rune>): (b: seq<Byte>)
  {
    if rs == [] then [] else EncodeAll(rs[..|rs| - 1]) + Encode(rs[|rs| - 1])
  }

  /** Byte offset of rune `k` of `rs`: what `for i, c := range s` gives as `i`. */
  function Offset(rs: seq<Rune>, k: nat): (i: nat)
    requires k <= |rs|
    ensures i == |EncodeAll(rs[..k])|
  {
    if k == 0 then 0
    else
      assert rs[..k][..k - 1] == rs[..k - 1];
      Offset(rs, k - 1) + RuneLen(rs[k - 1])
  }

  /** Offsets grow strictly from one rune to the next. */
  lemma {:induction false} OffsetMonotone(rs: seq<Rune>, j: nat, k: nat)
    requires j <= k <= |rs|
    ensures Offset(rs, j) + (k - j) <= Offset(rs, k)
    decreases k
  {
    if j < k {
      OffsetMonotone(rs, j, k - 1);
    }
  }
}
