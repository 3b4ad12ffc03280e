/**
 * The string helpers of fasttld: the 256-bit ASCII set, the index
 * primitives, in-place reversal, separator sizes and the parameters of the
 * label-separator replacer.
 */
module Strings {
  import opened Types
  import opened Utf8

  // ---------------------------------------------------------------------
  // Constants

  /** The four label separators of section 3.1 of RFC 3490. */
  const LabelSeparators: seq<Rune> := [0x2E, 0x3002, 0xFF0E, 0xFF61]

  /** The bytes of `/\\?#`. */
  const EndOfHostWithPortDelimiters: seq<Byte> := [47, 92, 63, 35]
  /** The port delimiters and `:`. */
  const EndOfHostDelimiters: seq<Byte> := EndOfHostWithPortDelimiters + [58]
  /** Characters that cannot appear in the userinfo part of a URL: the port delimiters and `[]`. */
  const InvalidUserInfoChars: seq<Byte> := EndOfHostWithPortDelimiters + [91, 93]

  /** The bytes of the separators, the Go string constant `labelSeparators`. */
  lemma LabelSeparatorBytes()
    ensures Encode(LabelSeparators[0]) == [0x2E]
    ensures Encode(LabelSeparators[1]) == [0xE3, 0x80, 0x82]
    ensures Encode(LabelSeparators[2]) == [0xEF, 0xBC, 0x8E]
    ensures Encode(LabelSeparators[3]) == [0xEF, 0xBD, 0xA1]
    ensures EncodeAll(LabelSeparators) ==
      [0x2E, 0xE3, 0x80, 0x82, 0xEF, 0xBC, 0x8E, 0xEF, 0xBD, 0xA1]
  {
    var s := LabelSeparators;
    assert s[..0] == [] && s[..1][..0] == s[..0] && s[..2][..1] == s[..1];
    assert s[..3][..2] == s[..2] && s[..4][..3] == s[..3] && s[..4] == s;
    assert EncodeAll(s[..1]) == [0x2E];
    assert EncodeAll(s[..2]) == [0x2E, 0xE3, 0x80, 0x82];
    assert EncodeAll(s[..3]) == [0x2E, 0xE3, 0x80, 0x82, 0xEF, 0xBC, 0x8E];
  }

  // ---------------------------------------------------------------------
  // asciiSet: eight 32-bit words, bit c%32 of word c/32 set iff c is a member

  type AsciiSet = s: seq<bv32> | |s| == 8 witness [0, 0, 0, 0, 0, 0, 0, 0]

  predicate IsAscii(chars: seq<Byte>) {
    forall k | 0 <= k < |chars| :: chars[k] < 128
  }

  /**
   * `as.contains(c)`: bit c%32 of word c/32. A set whose upper four words
   * are clear (every set built from ASCII characters) contains no byte
   * from 128 up.
   */
  function Contains(bits: AsciiSet, c: Byte): (b: bool)
    ensures (forall k | 4 <= k < 8 :: bits[k] == 0) && c >= 128 ==> !b
  {
    bits[c / 32] & Bit(c % 32) != 0
  }

  /** The word with only bit `j` set: `1 << j`. */
  function Bit(j: int): bv32
    requires 0 <= j < 32
  {
    (1 as bv32) << (j as bv5)
  }

  const EmptySet: AsciiSet := [0, 0, 0, 0, 0, 0, 0, 0]

  /** One step of `makeASCIISet`: `bits[c/32] |= 1 << (c % 32)`. */
  function Add(bits: AsciiSet, c: Byte): (r: AsciiSet)
    ensures forall b: Byte :: Contains(r, b) <==> Contains(bits, b) || b == c
  {
    var r := bits[c / 32 := bits[c / 32] | Bit(c % 32)];
    forall b: Byte ensures Contains(r, b) <==> Contains(bits, b) || b == c {
      if b / 32 == c / 32 {
        BitOr(bits[c / 32], c % 32, b % 32);
      }
    }
    r
  }

  /** Setting bit j of a word changes the answer for bit j only. */
  lemma BitOr(x: bv32, j: int, k: int)
    requires 0 <= j < 32 && 0 <= k < 32
    ensures (x | Bit(j)) & Bit(k) != 0 <==> x & Bit(k) != 0 || j == k
  {
    BitVectorOr(x, j as bv5, k as bv5);
    ShiftAmount(j);
    ShiftAmount(k);
  }

  lemma BitVectorOr(x: bv32, j: bv5, k: bv5)
    ensures (x | ((1 as bv32) << j)) & ((1 as bv32) << k) != 0
        <==> x & ((1 as bv32) << k) != 0 || j == k
  {
  }

  lemma ShiftAmount(j: int)
    requires 0 <= j < 32
    ensures (j as bv5) as int == j
  {
  }

  /** The set `makeASCIISet(chars)` builds, folded over the characters in order. */
  function AsciiSetOf(chars: seq<Byte>): AsciiSet {
    if chars == [] then EmptySet else Add(AsciiSetOf(chars[..|chars| - 1]), chars[|chars| - 1])
  }

  /** Membership in the built set is exactly occurrence in `chars`. */
  lemma {:induction false} AsciiSetOfMembers(chars: seq<Byte>, b: Byte)
    ensures Contains(AsciiSetOf(chars), b) <==> b in chars
  {
    if chars == [] {
      assert !Contains(EmptySet, b);
    } else {
      var init := chars[..|chars| - 1];
      AsciiSetOfMembers(init, b);
      assert chars == init + [chars[|chars| - 1]];
    }
  }

  /** Bytes 128 to 255 are never members of a set built from ASCII characters. */
  lemma NonAsciiNeverMember(chars: seq<Byte>, b: Byte)
    requires IsAscii(chars) && b >= 128
    ensures !Contains(AsciiSetOf(chars), b)
  {
    AsciiSetOfMembers(chars, b);
  }

  /** `makeASCIISet`: OR one bit per character into an eight-word array. */
  method MakeAsciiSet(chars: seq<Byte>) returns (bits: AsciiSet)
    requires IsAscii(chars)
    ensures bits == AsciiSetOf(chars)
    ensures forall b: Byte :: Contains(bits, b) <==> b in chars
  {
    var words := new bv32[8](_ => 0);
    for k := 0 to |chars|
      invariant words[..] == AsciiSetOf(chars[..k])
    {
      assert chars[..k + 1][..k] == chars[..k];
      var c := chars[k];
      words[c / 32] := words[c / 32] | Bit(c % 32);
    }
    assert chars[..|chars|] == chars;
    bits := words[..];
    forall b: Byte ensures Contains(bits, b) <==> b in chars {
      AsciiSetOfMembers(chars, b);
    }
  }

  const EndOfHostWithPortDelimitersSet: AsciiSet := AsciiSetOf(EndOfHostWithPortDelimiters)
  const EndOfHostDelimitersSet: AsciiSet := AsciiSetOf(EndOfHostDelimiters)
  const InvalidUserInfoCharsSet: AsciiSet := AsciiSetOf(InvalidUserInfoChars)

  /** The three delimiter sets: the port set, plus ':' or plus the brackets. */
  lemma DelimiterSets(b: Byte)
    ensures Contains(EndOfHostWithPortDelimitersSet, b) <==> b in [47, 92, 63, 35]
    ensures Contains(EndOfHostDelimitersSet, b)
        <==> Contains(EndOfHostWithPortDelimitersSet, b) || b == 58
    ensures Contains(InvalidUserInfoCharsSet, b)
        <==> Contains(EndOfHostWithPortDelimitersSet, b) || b == 91 || b == 93
  {
    AsciiSetOfMembers(EndOfHostWithPortDelimiters, b);
    AsciiSetOfMembers(EndOfHostDelimiters, b);
    AsciiSetOfMembers(InvalidUserInfoChars, b);
  }

  // ---------------------------------------------------------------------
  // Index primitives

  /** Index of the first byte of `s` that is in `bits`, or -1. */
  function FirstInSet(s: seq<Byte>, bits: AsciiSet): (r: int)
    ensures -1 <= r < |s|
    ensures r == -1 <==> forall k | 0 <= k < |s| :: !Contains(bits, s[k])
    ensures r >= 0 ==> Contains(bits, s[r]) && forall k | 0 <= k < r :: !Contains(bits, s[k])
  {
    if s == [] then -1
    else if Contains(bits, s[0]) then 0
    else var r := FirstInSet(s[1..], bits); if r == -1 then -1 else r + 1
  }

  /** `indexAnyASCII`: scan the bytes and return at the first member of the set. */
  method IndexAnyAscii(s: seq<Byte>, bits: AsciiSet) returns (r: int)
    ensures r == FirstInSet(s, bits)
  {
    for i := 0 to |s|
      invariant forall k | 0 <= k < i :: !Contains(bits, s[k])
    {
      if Contains(bits, s[i]) {
        return i;
      }
    }
    return -1;
  }

  /** `strings.IndexByte`: index of the first `b` in `s`, or -1 (see IndexByteFinds). */
  function IndexByte(s: seq<Byte>, b: Byte): (r: int)
    ensures -1 <= r < |s|
  {
    if s == [] then -1
    else if s[0] == b then 0
    else var r := IndexByte(s[1..], b); if r == -1 then -1 else r + 1
  }

  lemma {:induction false} IndexByteFinds(s: seq<Byte>, b: Byte)
    ensures IndexByte(s, b) == -1 <==> b !in s
    ensures IndexByte(s, b) >= 0 ==> s[IndexByte(s, b)] == b && b !in s[..IndexByte(s, b)]
  {
    if s != [] && s[0] != b {
      IndexByteFinds(s[1..], b);
      var r := IndexByte(s[1..], b);
      assert s == [s[0]] + s[1..];
      if r >= 0 {
        assert s[..r + 1] == [s[0]] + s[1..][..r];
      }
    }
  }

  /** `strings.LastIndexByte`: index of the last `b` in `s`, or -1 (see LastIndexByteFinds). */
  function LastIndexByte(s: seq<Byte>, b: Byte): (r: int)
    ensures -1 <= r < |s|
  {
    if s == [] then -1
    else if s[|s| - 1] == b then |s| - 1
    else LastIndexByte(s[..|s| - 1], b)
  }

  lemma {:induction false} LastIndexByteFinds(s: seq<Byte>, b: Byte)
    ensures LastIndexByte(s, b) == -1 <==> b !in s
    ensures LastIndexByte(s, b) >= 0 ==>
      s[LastIndexByte(s, b)] == b && b !in s[LastIndexByte(s, b) + 1..]
  {
    if s != [] && s[|s| - 1] != b {
      var init := s[..|s| - 1];
      LastIndexByteFinds(init, b);
      assert s == init + [s[|s| - 1]];
      var r := LastIndexByte(init, b);
      if r >= 0 {
        assert s[r + 1..] == init[r + 1..] + [s[|s| - 1]];
      }
    }
  }

  /** `pat` occurs in `s` at byte offset `k`. */
  predicate OccursAt(s: seq<Byte>, pat: seq<Byte>, k: int) {
    0 <= k && k + |pat| <= |s| && s[k..k + |pat|] == pat
  }

  /** `strings.Index`: offset of the first occurrence of `pat` in `s`, or -1 (see IndexOfFinds). */
  function IndexOf(s: seq<Byte>, pat: seq<Byte>): (r: int)
    ensures -1 <= r <= |s|
  {
    IndexOfFrom(s, pat, 0)
  }

  function IndexOfFrom(s: seq<Byte>, pat: seq<Byte>, i: nat): (r: int)
    ensures -1 <= r <= |s|
    decreases |s| + 1 - i
  {
    if i > |s| then -1
    else if OccursAt(s, pat, i) then i
    else IndexOfFrom(s, pat, i + 1)
  }

  lemma {:induction false} IndexOfFromFinds(s: seq<Byte>, pat: seq<Byte>, i: nat)
    requires i <= |s| + 1
    requires forall k | 0 <= k < i :: !OccursAt(s, pat, k)
    ensures var r := IndexOfFrom(s, pat, i);
      && (r == -1 <==> forall k | 0 <= k <= |s| :: !OccursAt(s, pat, k))
      && (r >= 0 ==> OccursAt(s, pat, r) && forall k | 0 <= k < r :: !OccursAt(s, pat, k))
    decreases |s| + 1 - i
  {
    if i <= |s| && !OccursAt(s, pat, i) {
      IndexOfFromFinds(s, pat, i + 1);
    }
  }

  /**
   * `indexRune`: a byte search for an ASCII rune, a substring search for
   * the encoding of any other. Its meaning is IndexRuneFindsEncoding.
   */
  function IndexRune(s: seq<Byte>, r: Rune): (i: int)
    ensures -1 <= i <= |s|
  {
    if r < 0x80 then IndexByte(s, r) else IndexOf(s, Encode(r))
  }

  /** Either way, `indexRune` finds the first offset at which the encoding of `r` occurs. */
  lemma IndexRuneFindsEncoding(s: seq<Byte>, r: Rune)
    ensures IndexRune(s, r) == -1 <==> forall k | 0 <= k <= |s| :: !OccursAt(s, Encode(r), k)
    ensures IndexRune(s, r) >= 0 ==>
      && OccursAt(s, Encode(r), IndexRune(s, r))
      && forall k | 0 <= k < IndexRune(s, r) :: !OccursAt(s, Encode(r), k)
  {
    if r < 0x80 {
      var i := IndexByte(s, r);
      IndexByteFinds(s, r);
      forall k | 0 <= k <= |s| ensures OccursAt(s, Encode(r), k) <==> k < |s| && s[k] == r {
        if k < |s| { assert s[k..k + 1] == [s[k]]; }
      }
      if i >= 0 {
        forall k | 0 <= k < i ensures s[k] != r { assert s[..i][k] == s[k]; }
      }
    } else {
      IndexOfFromFinds(s, Encode(r), 0);
    }
  }

  /** The rune `c` is one of `chars`, as `indexRune(chars, c) != -1` decides it. */
  predicate InChars(chars: seq<Byte>, c: Rune) {
    IndexRune(chars, c) != -1
  }

  /**
   * Searching the Go string `labelSeparators` for a rune finds it exactly
   * when the rune is one of the four separators: no other rune's encoding
   * occurs in those ten bytes, not even across two separators.
   */
  lemma LabelSeparatorMembers(r: Rune)
    ensures InChars(EncodeAll(LabelSeparators), r) <==> r in LabelSeparators
  {
    var s := EncodeAll(LabelSeparators);
    var e := Encode(r);
    LabelSeparatorBytes();
    IndexRuneFindsEncoding(s, r);
    if r in LabelSeparators {
      var k := if r == 0x2E then 0 else if r == 0x3002 then 1 else if r == 0xFF0E then 4 else 7;
      assert OccursAt(s, e, k);
    } else {
      forall k | 0 <= k <= |s| ensures !OccursAt(s, e, k) {
        if OccursAt(s, e, k) {
          SeparatorOccurrence(s, r, k);
        }
      }
    }
  }

  /** An occurrence of a rune's encoding in the separator bytes is one of the separators. */
  lemma SeparatorOccurrence(s: seq<Byte>, r: Rune, k: nat)
    requires s == [0x2E, 0xE3, 0x80, 0x82, 0xEF, 0xBC, 0x8E, 0xEF, 0xBD, 0xA1]
    requires OccursAt(s, Encode(r), k)
    ensures r in LabelSeparators
  {
    var e := Encode(r);
    assert forall j | 0 <= j < |e| :: e[j] == s[k + j];
    DecodeEncode(r);
    if r >= 0x80 {
      assert k == 1 || k == 4 || k == 7;
      assert |e| == 3;
      assert e == s[k..k + 3];
    }
  }

  /** Index of the first rune of `s` that is in `chars`, or -1. */
  function FirstMatch(s: seq<Rune>, chars: seq<Byte>): (k: int)
    ensures -1 <= k < |s|
    ensures k == -1 <==> forall j | 0 <= j < |s| :: !InChars(chars, s[j])
    ensures k >= 0 ==> InChars(chars, s[k]) && forall j | 0 <= j < k :: !InChars(chars, s[j])
  {
    if s == [] then -1
    else if InChars(chars, s[0]) then 0
    else var k := FirstMatch(s[1..], chars); if k == -1 then -1 else k + 1
  }

  /** Index of the last rune of `s` that is in `chars`, or -1. */
  function LastMatch(s: seq<Rune>, chars: seq<Byte>): (k: int)
    ensures -1 <= k < |s|
    ensures k == -1 <==> forall j | 0 <= j < |s| :: !InChars(chars, s[j])
    ensures k >= 0 ==> InChars(chars, s[k]) && forall j | k < j < |s| :: !InChars(chars, s[j])
  {
    if s == [] then -1
    else if InChars(chars, s[|s| - 1]) then |s| - 1
    else
      var init := s[..|s| - 1];
      assert forall j | 0 <= j < |init| :: init[j] == s[j];
      LastMatch(init, chars)
  }

  /**
   * `indexAny` over the well-formed string whose runes are `s`: the byte
   * offset of the first rune that occurs in `chars`, or -1.
   */
  method IndexAny(s: seq<Rune>, chars: seq<Byte>) returns (r: int)
    ensures r == -1 <==> FirstMatch(s, chars) == -1
    ensures r != -1 ==> r == Offset(s, FirstMatch(s, chars))
  {
    ghost var first := FirstMatch(s, chars);
    var i := 0;
    for k := 0 to |s|
      invariant i == Offset(s, k)
      invariant first == -1 || k <= first
    {
      if IndexRune(chars, s[k]) != -1 {
        return i;
      }
      assert first != k;
      i := i + RuneLen(s[k]);
    }
    return -1;
  }

  /**
   * `lastIndexAny`: walk back one rune at a time from the end and return
   * the byte offset of the first rune found that occurs in `chars`, or -1.
   */
  method LastIndexAny(s: seq<Rune>, chars: seq<Byte>) returns (r: int)
    ensures r == -1 <==> LastMatch(s, chars) == -1
    ensures r != -1 ==> r == Offset(s, LastMatch(s, chars))
  {
    var i, k := Offset(s, |s|), |s|;
    assert s[..k] == s;
    while k > 0
      invariant 0 <= k <= |s| && i == Offset(s, k)
      invariant LastMatch(s, chars) == LastMatch(s[..k], chars)
    {
      assert Offset(s, k) == Offset(s, k - 1) + RuneLen(s[k - 1]);
      i, k := i - RuneLen(s[k - 1]), k - 1;
      LastMatchDrop(s, chars, k);
      if IndexRune(chars, s[k]) != -1 {
        return i;
      }
    }
    return -1;
  }

  /** The last match in the first `k + 1` runes: `k` itself, or the last match before it. */
  lemma LastMatchDrop(s: seq<Rune>, chars: seq<Byte>, k: nat)
    requires k < |s|
    ensures LastMatch(s[..k + 1], chars)
         == if InChars(chars, s[k]) then k else LastMatch(s[..k], chars)
  {
    assert s[..k + 1][..k] == s[..k];
  }

  /** When some rune matches, the first match is at or before the last one. */
  lemma FirstNotAfterLast(s: seq<Rune>, chars: seq<Byte>)
    requires FirstMatch(s, chars) != -1
    ensures LastMatch(s, chars) != -1
    ensures Offset(s, FirstMatch(s, chars)) <= Offset(s, LastMatch(s, chars))
  {
    OffsetMonotone(s, FirstMatch(s, chars), LastMatch(s, chars));
  }

  /**
   * `indexLastByteBefore`: the last `b` strictly before the first byte of
   * `s` that is in `notAfter`, searching all of `s` when there is none.
   */
  function IndexLastByteBefore(s: seq<Byte>, b: Byte, notAfter: AsciiSet): (r: int)
    ensures var f := FirstInSet(s, notAfter);
      var bound := if f == -1 then |s| else f;
      && -1 <= r < bound
      && (r == -1 <==> forall k | 0 <= k < bound :: s[k] != b)
      && (r >= 0 ==> s[r] == b && forall k | r < k < bound :: s[k] != b)
  {
    var f := FirstInSet(s, notAfter);
    var bound := if f == -1 then |s| else f;
    var r := LastIndexByte(s[..bound], b);
    LastByteInPrefix(s, b, bound);
    r
  }

  /** `strings.LastIndexByte(s[0:bound], b)`, read back in terms of `s`. */
  lemma LastByteInPrefix(s: seq<Byte>, b: Byte, bound: nat)
    requires bound <= |s|
    ensures var r := LastIndexByte(s[..bound], b);
      && -1 <= r < bound
      && (r == -1 <==> forall k | 0 <= k < bound :: s[k] != b)
      && (r >= 0 ==> s[r] == b && forall k | r < k < bound :: s[k] != b)
  {
    var p := s[..bound];
    var r := LastIndexByte(p, b);
    LastIndexByteFinds(p, b);
    assert forall k | 0 <= k < bound :: p[k] == s[k];
    if r >= 0 {
      forall k | r < k < bound ensures s[k] != b {
        assert p[r + 1..][k - r - 1] == s[k];
      }
    }
  }

  // ---------------------------------------------------------------------
  // reverse, sepSize, makeNewReplacerParams

  /** `s` back to front. */
  function Reversed<T>(s: seq<T>): (r: seq<T>)
    ensures |r| == |s|
  {
    seq(|s|, k requires 0 <= k < |s| => s[|s| - 1 - k])
  }

  lemma ReversedTwice<T>(s: seq<T>)
    ensures Reversed(Reversed(s)) == s
  {
  }

  /** `reverse`: swap from both ends towards the middle, in place. */
  method Reverse<T>(a: array<T>)
    modifies a
    ensures a[..] == Reversed(old(a[..]))
    ensures forall k | 0 <= k < a.Length :: a[k] == old(a[a.Length - 1 - k])
  {
    var i, j := 0, a.Length - 1;
    while i < j
      invariant 0 <= i <= j + 1 <= a.Length && i + j == a.Length - 1
      invariant forall k | 0 <= k < i :: a[k] == old(a[a.Length - 1 - k]) && a[a.Length - 1 - k] == old(a[k])
      invariant forall k | i <= k <= j :: a[k] == old(a[k])
    {
      a[i], a[j] := a[j], a[i];
      i, j := i + 1, j - 1;
    }
  }

  /** `sepSize`: the byte length of a label separator, given its first byte. */
  function SepSize(first: Byte): (n: nat)
    ensures n == 1 || n == 3
    ensures n == 1 <==> first == 0x2E
  {
    if first == 46 then 1 else 3
  }

  /** For every label separator, the size from its first byte is its encoded length. */
  lemma SepSizeOfSeparators(k: nat)
    requires k < |LabelSeparators|
    ensures SepSize(Encode(LabelSeparators[k])[0]) == |Encode(LabelSeparators[k])|
  {
    LabelSeparatorBytes();
  }

  /** The (old, new) pairs for `strings.NewReplacer`: each rune of `t`, encoded, then `w`. */
  function ReplacerPairs(t: seq<Rune>, w: seq<Byte>): (p: seq<seq<Byte>>)
    ensures |p| == 2 * |t|
  {
    if t == [] then [] else ReplacerPairs(t[..|t| - 1], w) + [Encode(t[|t| - 1]), w]
  }

  /** The `k`-th pair replaces the `k`-th rune of `t` by `w`. */
  lemma {:induction false} ReplacerPairsAt(t: seq<Rune>, w: seq<Byte>, k: nat)
    requires k < |t|
    ensures ReplacerPairs(t, w)[2 * k] == Encode(t[k]) && ReplacerPairs(t, w)[2 * k + 1] == w
    decreases |t|
  {
    if k < |t| - 1 {
      var init := t[..|t| - 1];
      ReplacerPairsAt(init, w, k);
      assert init[k] == t[k];
    }
  }

  /** One more rune, one more pair. */
  lemma ReplacerPairsSnoc(t: seq<Rune>, w: seq<Byte>, k: nat)
    requires k < |t|
    ensures ReplacerPairs(t[..k + 1], w) == ReplacerPairs(t[..k], w) + [Encode(t[k]), w]
  {
    assert t[..k + 1][..k] == t[..k];
  }

  /** `n` empty strings. */
  function Blanks(n: nat): (b: seq<seq<Byte>>)
    ensures |b| == n && forall k | 0 <= k < n :: b[k] == []
  {
    if n == 0 then [] else Blanks(n - 1) + [[]]
  }

  /**
   * What `makeNewReplacerParams(t, w)` returns as written: `make` with a
   * length puts `len(t)` empty strings (one per byte of `t`) before the pairs.
   */
  function ReplacerParams(t: seq<Rune>, w: seq<Byte>): seq<seq<Byte>> {
    Blanks(|EncodeAll(t)|) + ReplacerPairs(t, w)
  }

  /** `makeNewReplacerParams(t, w)` for the well-formed string whose runes are `t`. */
  method MakeNewReplacerParams(t: seq<Rune>, w: seq<Byte>) returns (params: seq<seq<Byte>>)
    ensures params == ReplacerParams(t, w)
  {
    var n := Offset(t, |t|);
    assert t[..|t|] == t;
    params := Blanks(n);
    for k := 0 to |t|
      invariant params == Blanks(n) + ReplacerPairs(t[..k], w)
    {
      ReplacerPairsSnoc(t, w, k);
      assert params + [Encode(t[k]), w] == Blanks(n) + (ReplacerPairs(t[..k], w) + [Encode(t[k]), w]);
      params := params + [Encode(t[k]), w];
    }
  }

  /**
   * As written, the number of parameters has the parity of the byte
   * length of `t`, and `strings.NewReplacer` panics on an odd count.
   */
  lemma ReplacerParamsParity(t: seq<Rune>, w: seq<Byte>)
    ensures |ReplacerParams(t, w)| % 2 == |EncodeAll(t)| % 2
  {
  }

  /** As written, a single full stop gives three parameters. */
  lemma FullStopParams(w: seq<Byte>)
    ensures |ReplacerParams([0x2E], w)| == 3
  {
    assert EncodeAll([0x2E]) == EncodeAll([]) + Encode(0x2E);
  }

  /**
   * `makeNewReplacerParams` as evidently intended (`make` with a capacity,
   * not a length): exactly the pairs, an even number of parameters.
   */
  method MakeReplacerPairs(t: seq<Rune>, w: seq<Byte>) returns (params: seq<seq<Byte>>)
    ensures params == ReplacerPairs(t, w) && |params| % 2 == 0
  {
    params := [];
    for k := 0 to |t|
      invariant params == ReplacerPairs(t[..k], w)
    {
      ReplacerPairsSnoc(t, w, k);
      params := params + [Encode(t[k]), w];
    }
    assert t[..|t|] == t;
  }
}
