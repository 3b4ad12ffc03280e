/**
 * The IP literal parser of fasttld: decimal and hexadecimal accumulators,
 * the dotted-quad reader, the RFC 4291 text-form reader with its `::`
 * ellipsis and embedded IPv4 tail, and the dispatch between the two.
 *
 * Each parser is a method over a 16-byte array, proved equal to a
 * specification function (Ipv4Spec, Ipv6Spec, IpSpec) whose properties are
 * proved in modules NetIpv4Proofs and NetIpv6Proofs.
 */
module Net {
  import opened Types

  const IPv4Len: nat := 4
  const IPv6Len: nat := 16

  /** The accumulators stop at this value: bigger than any octet or group. */
  const Big: nat := 0xFFFFFF

  /** The twelve bytes that precede an IPv4 address in its IPv4-mapped IPv6 form. */
  const V4InV6Prefix: seq<Byte> := [0, 0, 0, 0, 0, 0, 0, 0, 0, 0, 0xff, 0xff]

  const Colon: Byte := 58
  const Zero: Byte := 48

  // ---------------------------------------------------------------------
  // Digits

  predicate IsDigit(b: Byte) { 48 <= b <= 57 }

  predicate IsHexDigit(b: Byte) { IsDigit(b) || 97 <= b <= 102 || 65 <= b <= 70 }

  /** A digit of base 10 or 16. */
  predicate InBase(b: Byte, base: nat) {
    if base == 10 then IsDigit(b) else IsHexDigit(b)
  }

  predicate IsBase(base: nat) { base == 10 || base == 16 }

  predicate AllInBase(d: seq<Byte>, base: nat) {
    forall k | 0 <= k < |d| :: InBase(d[k], base)
  }

  function DigitValue(b: Byte): (v: nat)
    requires IsHexDigit(b)
    ensures v < 16 && (IsDigit(b) ==> v < 10)
  {
    if IsDigit(b) then b - 48 else if b >= 97 then b - 87 else b - 55
  }

  /** Length of the run of digits at the start of `s`. */
  function DigitRun(s: seq<Byte>, base: nat): (n: nat)
    requires IsBase(base)
    ensures n <= |s| && AllInBase(s[..n], base)
    ensures n == |s| || !InBase(s[n], base)
  {
    if s == [] || !InBase(s[0], base) then 0
    else
      var n := 1 + DigitRun(s[1..], base);
      assert forall k | 1 <= k < n :: s[..n][k] == s[1..][..n - 1][k - 1];
      n
  }

  /** The number that the digits `d` denote, most significant first. */
  function Value(d: seq<Byte>, base: nat): nat
    requires IsBase(base) && AllInBase(d, base)
  {
    if d == [] then 0
    else Value(d[..|d| - 1], base) * base + DigitValue(d[|d| - 1])
  }

  /** Value of one more digit. */
  lemma ValueSnoc(s: seq<Byte>, base: nat, i: nat)
    requires IsBase(base) && i < |s| && AllInBase(s[..i + 1], base)
    ensures AllInBase(s[..i], base)
    ensures Value(s[..i + 1], base) == Value(s[..i], base) * base + DigitValue(s[i])
  {
    assert s[..i + 1][..i] == s[..i];
    assert forall k | 0 <= k < i :: s[..i][k] == s[..i + 1][k];
  }

  /** One more digit: the run is longer and its value grows by a place. */
  lemma DigitStep(s: seq<Byte>, base: nat, i: nat)
    requires IsBase(base) && i < |s| && i <= DigitRun(s, base)
    requires AllInBase(s[..i], base) && InBase(s[i], base)
    ensures i + 1 <= DigitRun(s, base) && AllInBase(s[..i + 1], base)
    ensures Value(s[..i + 1], base) == Value(s[..i], base) * base + DigitValue(s[i])
  {
    ValueSnoc(s, base, i);
  }

  /** A longer run of digits denotes a value at least as large. */
  lemma {:induction false} ValueMonotone(s: seq<Byte>, base: nat, j: nat, k: nat)
    requires IsBase(base) && j <= k <= |s| && AllInBase(s[..k], base)
    ensures AllInBase(s[..j], base)
    ensures Value(s[..j], base) <= Value(s[..k], base)
    decreases k
  {
    if j < k {
      assert forall m | 0 <= m < k - 1 :: s[..k - 1][m] == s[..k][m];
      ValueMonotone(s, base, j, k - 1);
      ValueSnoc(s, base, k - 1);
    } else {
      assert s[..j] == s[..k];
    }
  }

  /** A run of `n` digits followed by a non-digit (or the end) is the digit run. */
  lemma DigitRunIs(s: seq<Byte>, base: nat, n: nat)
    requires IsBase(base) && n <= |s| && AllInBase(s[..n], base)
    requires n == |s| || !InBase(s[n], base)
    ensures DigitRun(s, base) == n
  {
  }

  /**
   * The successful outcome of `dtoi` (base 10) and `xtoi` (base 16): the
   * value of the whole leading run of digits and its length, provided the
   * run is not empty and its value stays below Big.
   */
  function NumberPrefix(s: seq<Byte>, base: nat): (r: Option<(nat, nat)>)
    requires IsBase(base)
    ensures r.Some? ==>
      var (v, n) := r.value;
      && 0 < n <= |s| && AllInBase(s[..n], base)
      && (n == |s| || !InBase(s[n], base))
      && v == Value(s[..n], base) < Big
  {
    var n := DigitRun(s, base);
    if n == 0 || Value(s[..n], base) >= Big then None else Some((Value(s[..n], base), n))
  }

  /** Where the accumulating loop stops at a non-digit or the end, it has read the whole run. */
  lemma RunEnd(s: seq<Byte>, base: nat, i: nat, n: nat)
    requires IsBase(base) && i <= |s| && AllInBase(s[..i], base)
    requires n == Value(s[..i], base) < Big
    requires i == |s| || !InBase(s[i], base)
    ensures DigitRun(s, base) == i
    ensures NumberPrefix(s, base) == if i == 0 then None else Some((n, i))
  {
    DigitRunIs(s, base, i);
  }

  /**
   * `dtoi`: accumulate decimal digits; give up with (Big, i, false) as
   * soon as the value reaches Big, and fail with (0, 0, false) when `s`
   * does not start with a digit.
   */
  method Dtoi(s: seq<Byte>) returns (n: int, i: int, ok: bool)
    ensures ok <==> NumberPrefix(s, 10).Some?
    ensures ok ==> (n, i) == NumberPrefix(s, 10).value
    ensures ok ==> 0 < i <= |s| && n < Big && (i == |s| || !IsDigit(s[i]))
    ensures !ok && DigitRun(s, 10) == 0 ==> n == 0 && i == 0
    ensures !ok && DigitRun(s, 10) > 0 ==>
      && n == Big && 0 <= i < DigitRun(s, 10)
      && Value(s[..i + 1], 10) >= Big && Value(s[..i], 10) < Big
  {
    n, i := 0, 0;
    while i < |s| && IsDigit(s[i])
      invariant 0 <= i <= DigitRun(s, 10)
      invariant AllInBase(s[..i], 10) && n == Value(s[..i], 10) && n < Big
    {
      DigitStep(s, 10, i);
      n := n * 10 + (s[i] - 48);
      if n >= Big {
        ValueMonotone(s, 10, i + 1, DigitRun(s, 10));
        return Big, i, false;
      }
      i := i + 1;
    }
    RunEnd(s, 10, i, n);
    if i == 0 {
      return 0, 0, false;
    }
    return n, i, true;
  }

  /**
   * `xtoi`: the same over hexadecimal digits of either case, except that
   * reaching Big gives (0, i, false).
   */
  method Xtoi(s: seq<Byte>) returns (n: int, i: int, ok: bool)
    ensures ok <==> NumberPrefix(s, 16).Some?
    ensures ok ==> (n, i) == NumberPrefix(s, 16).value
    ensures ok ==> 0 < i <= |s| && n < Big && (i == |s| || !IsHexDigit(s[i]))
    ensures !ok && DigitRun(s, 16) == 0 ==> n == 0 && i == 0
    ensures !ok && DigitRun(s, 16) > 0 ==>
      && n == 0 && 0 <= i < DigitRun(s, 16)
      && Value(s[..i + 1], 16) >= Big && Value(s[..i], 16) < Big
  {
    n, i := 0, 0;
    while i < |s|
      invariant 0 <= i <= DigitRun(s, 16)
      invariant AllInBase(s[..i], 16) && n == Value(s[..i], 16) && n < Big
    {
      if 48 <= s[i] <= 57 {
        n := n * 16;
        n := n + (s[i] - 48);
      } else if 97 <= s[i] <= 102 {
        n := n * 16;
        n := n + (s[i] - 97) + 10;
      } else if 65 <= s[i] <= 70 {
        n := n * 16;
        n := n + (s[i] - 65) + 10;
      } else {
        break;
      }
      DigitStep(s, 16, i);
      if n >= Big {
        ValueMonotone(s, 16, i + 1, DigitRun(s, 16));
        return 0, i, false;
      }
      i := i + 1;
    }
    RunEnd(s, 16, i, n);
    if i == 0 {
      return 0, i, false;
    }
    return n, i, true;
  }

  // ---------------------------------------------------------------------
  // IPv4

  /**
   * Length of the label separator at the start of `s`, or 0: the four
   * separators of section 3.1 of RFC 3490 are encoded as 2E, E3 80 82,
   * EF BC 8E and EF BD A1. This is "the rune decoded from `s` is one of
   * them", and its size.
   */
  function SepLen(s: seq<Byte>): (n: nat)
    ensures n == 0 || n == 1 || n == 3
    ensures n <= |s|
  {
    if |s| >= 1 && s[0] == 0x2E then 1
    else if |s| >= 3 && s[..3] in [[0xE3, 0x80, 0x82], [0xEF, 0xBC, 0x8E], [0xEF, 0xBD, 0xA1]] then 3
    else 0
  }

  /** `IPv4(a, b, c, d)` as a value: the IPv4-mapped form of section 2.5.5.2 of RFC 4291. */
  function MappedV4(a: Byte, b: Byte, c: Byte, d: Byte): (ip: seq<Byte>)
    ensures |ip| == IPv6Len
  {
    V4InV6Prefix + [a, b, c, d]
  }

  /** `IPv4`: copy the prefix into a fresh 16-byte buffer, then write the four octets. */
  method IPv4(a: Byte, b: Byte, c: Byte, d: Byte) returns (ip: seq<Byte>)
    ensures ip == MappedV4(a, b, c, d)
    ensures forall k | 0 <= k < 10 :: ip[k] == 0
    ensures ip[10] == ip[11] == 0xff && ip[12..] == [a, b, c, d]
  {
    var p := new Byte[IPv6Len](_ => 0);
    for k := 0 to |V4InV6Prefix|
      invariant forall j | 0 <= j < k :: p[j] == V4InV6Prefix[j]
    {
      p[k] := V4InV6Prefix[k];
    }
    p[12] := a;
    p[13] := b;
    p[14] := c;
    p[15] := d;
    ip := p[..];
  }

  /** One octet as `parseIPv4` reads it: at most 0xFF, no leading zero unless it is "0". */
  function Octet(s: seq<Byte>): (r: Option<(Byte, nat)>)
    ensures r.Some? ==>
      var (v, n) := r.value;
      && 0 < n <= |s| && AllInBase(s[..n], 10)
      && (n == |s| || !InBase(s[n], 10))
      && v == Value(s[..n], 10)
      && (n > 1 ==> s[0] != Zero)
  {
    match NumberPrefix(s, 10)
    case None => None
    case Some((n, c)) =>
      if n > 0xFF then None
      else if c > 1 && s[0] == Zero then None
      else Some((n, c))
  }

  /**
   * Octets `i` to 3 of a dotted quad read from `s`: each but the first is
   * preceded by a separator, and nothing may follow the last.
   */
  function OctetsFrom(s: seq<Byte>, i: nat): (r: Option<seq<Byte>>)
    requires i <= IPv4Len
    ensures r.Some? ==> |r.value| == IPv4Len - i
    decreases IPv4Len - i
  {
    if i == IPv4Len then (if |s| == 0 then Some([]) else None)
    else if |s| == 0 then None
    else
      var sep := if i > 0 then SepLen(s) else 0;
      if i > 0 && sep == 0 then None
      else match Octet(s[sep..])
        case None => None
        case Some((v, c)) =>
          match OctetsFrom(s[sep..][c..], i + 1)
          case None => None
          case Some(rest) => Some([v] + rest)
  }

  /** `parseIPv4` as a value: the mapped address of the four octets, or None. */
  function Ipv4Spec(s: seq<Byte>): (r: Option<seq<Byte>>)
    ensures r.Some? ==> |r.value| == IPv6Len && r.value[..12] == V4InV6Prefix
  {
    match OctetsFrom(s, 0)
    case None => None
    case Some(p) => Some(MappedV4(p[0], p[1], p[2], p[3]))
  }

  function Prepend(xs: seq<Byte>, o: Option<seq<Byte>>): Option<seq<Byte>> {
    match o
    case None => None
    case Some(ys) => Some(xs + ys)
  }

  /** One round of OctetsFrom, when its separator and its octet are both there. */
  lemma OctetsFromStep(t: seq<Byte>, i: nat, sep: nat, v: Byte, c: nat)
    requires i < IPv4Len && |t| > 0
    requires sep == (if i > 0 then SepLen(t) else 0) && (i == 0 || sep > 0)
    requires Octet(t[sep..]) == Some((v, c))
    ensures c <= |t[sep..]|
    ensures OctetsFrom(t, i) == Prepend([v], OctetsFrom(t[sep..][c..], i + 1))
  {
  }

  lemma PrependTwice(xs: seq<Byte>, ys: seq<Byte>, o: Option<seq<Byte>>)
    ensures Prepend(xs, Prepend(ys, o)) == Prepend(xs + ys, o)
  {
    if o.Some? {
      assert xs + (ys + o.value) == (xs + ys) + o.value;
    }
  }

  lemma PrependNothing(o: Option<seq<Byte>>)
    ensures Prepend([], o) == o
  {
    if o.Some? { assert [] + o.value == o.value; }
  }

  /**
   * One round of the loop of `parseIPv4`: the separator (from the second
   * octet on), then `dtoi` and the octet checks. Returns what is left of `t`.
   */
  method NextOctet(t: seq<Byte>, i: nat) returns (ok: bool, n: Byte, rest: seq<Byte>)
    requires i < IPv4Len
    ensures ok ==> OctetsFrom(t, i) == Prepend([n], OctetsFrom(rest, i + 1))
    ensures !ok ==> OctetsFrom(t, i) == None
  {
    n, rest := 0, t;
    if |t| == 0 {
      // fewer than four octets before the input ran out
      return false, n, rest;
    }
    var size := 0;
    if i > 0 {
      size := SepLen(t);
      if size > 0 {
        rest := t[size..];
      } else {
        return false, n, rest;
      }
    }
    var v, c, good := Dtoi(rest);
    if !good || v > 0xFF {
      return false, n, rest;
    }
    if c > 1 && rest[0] == Zero {
      // an octet written with a leading 0 and more digits
      return false, n, rest;
    }
    OctetsFromStep(t, i, size, v, c);
    n, rest := v, rest[c..];
    ok := true;
  }

  /** After the fourth octet, the rest of the input decides. */
  lemma OctetsEnd(s: seq<Byte>, p: seq<Byte>, t: seq<Byte>)
    requires OctetsFrom(s, 0) == Prepend(p, OctetsFrom(t, IPv4Len))
    ensures |t| != 0 ==> Ipv4Spec(s) == None
    ensures |t| == 0 ==> OctetsFrom(s, 0) == Some(p)
    ensures |t| == 0 && |p| == 4 ==> Ipv4Spec(s) == Some(MappedV4(p[0], p[1], p[2], p[3]))
  {
    if |t| == 0 {
      assert p + [] == p;
    }
  }

  /** The loop of `parseIPv4`: four octets into a fresh 4-byte array, and what is left of `s`. */
  method ReadOctets(s: seq<Byte>) returns (ok: bool, p: array<Byte>, t: seq<Byte>)
    ensures fresh(p) && p.Length == IPv4Len
    ensures !ok ==> OctetsFrom(s, 0) == None
    ensures ok ==> OctetsFrom(s, 0) == Prepend(p[..], OctetsFrom(t, IPv4Len))
  {
    p := new Byte[IPv4Len](_ => 0);
    t := s;
    ghost var done: seq<Byte> := [];
    PrependNothing(OctetsFrom(s, 0));
    var i := 0;
    while i < IPv4Len
      invariant 0 <= i <= IPv4Len
      invariant |done| == i && p[..i] == done
      invariant OctetsFrom(s, 0) == Prepend(done, OctetsFrom(t, i))
    {
      var good, n, rest := NextOctet(t, i);
      if !good {
        return false, p, t;
      }
      PrependTwice(done, [n], OctetsFrom(rest, i + 1));
      t := rest;
      p[i] := n;
      done := done + [n];
      i := i + 1;
    }
    assert p[..] == p[..i];
    ok := true;
  }

  /** `parseIPv4`: four octets, then nothing may be left. */
  method ParseIPv4(s: seq<Byte>) returns (ip: Option<seq<Byte>>)
    ensures ip == Ipv4Spec(s)
  {
    var ok, p, t := ReadOctets(s);
    if !ok {
      return None;
    }
    OctetsEnd(s, p[..], t);
    if |t| != 0 {
      return None;
    }
    var mapped := IPv4(p[0], p[1], p[2], p[3]);
    return Some(mapped);
  }

  // ---------------------------------------------------------------------
  // IPv6

  /** Where the group loop of `parseIPv6` stops: bytes written, ellipsis position, input left. */
  datatype Scan = Scan(written: seq<Byte>, ellipsis: int, rest: seq<Byte>)

  /** The two bytes of a 16-bit group, high byte first. */
  function GroupBytes(n: nat): (b: seq<Byte>)
    requires n <= 0xFFFF
    ensures |b| == 2 && (b[0] as int) * 256 + (b[1] as int) == n
  {
    [n / 256, n % 256]
  }

  /**
   * The group loop of `parseIPv6` from a state with `written` bytes in the
   * buffer, ellipsis position `e` (-1 when none) and input `t`: None when
   * the loop rejects, otherwise the state it stops in.
   */
  function Groups(t: seq<Byte>, written: seq<Byte>, e: int): (r: Option<Scan>)
    requires |written| <= IPv6Len && |written| % 2 == 0 && -1 <= e <= |written|
    ensures r.Some? ==> |r.value.written| <= IPv6Len && -1 <= r.value.ellipsis <= |r.value.written|
    decreases IPv6Len - |written|, 0
  {
    if |written| >= IPv6Len then Some(Scan(written, e, t))
    else match NumberPrefix(t, 16)
      case None => None
      case Some((n, c)) =>
        if n > 0xFFFF then None
        else if c < |t| && SepLen(t[c..]) > 0 then TailScan(t, written, e)
        else AfterGroup(t[c..], written + GroupBytes(n), e)
  }

  /**
   * The rest of one round of the group loop, once a group has been written
   * (`w` includes it): the end of the input stops the loop, and otherwise a
   * colon must follow; a second colon marks the ellipsis, which may also
   * end the input.
   */
  function AfterGroup(t1: seq<Byte>, w: seq<Byte>, e: int): (r: Option<Scan>)
    requires |w| <= IPv6Len && |w| % 2 == 0 && -1 <= e <= |w|
    ensures r.Some? ==> |r.value.written| <= IPv6Len && -1 <= r.value.ellipsis <= |r.value.written|
    decreases IPv6Len - |w|, 1
  {
    if |t1| == 0 then Some(Scan(w, e, t1))
    else if t1[0] != Colon || |t1| == 1 then None
    else
      var t2 := t1[1..];
      if t2[0] == Colon then
        if e >= 0 then None
        else if |t2| == 1 then Some(Scan(w, |w|, []))
        else Groups(t2[1..], w, |w|)
      else Groups(t2, w, e)
  }

  /**
   * An IPv4 tail: allowed only where the last two groups go, or after an
   * ellipsis; its four octets end the scan.
   */
  function TailScan(t: seq<Byte>, written: seq<Byte>, e: int): (r: Option<Scan>)
    requires |written| <= IPv6Len && -1 <= e <= |written|
    ensures r.Some? ==> |r.value.written| == |written| + IPv4Len <= IPv6Len && r.value.ellipsis == e
  {
    if e < 0 && |written| != IPv6Len - IPv4Len then None
    else if |written| + IPv4Len > IPv6Len then None
    else match Ipv4Spec(t)
      case None => None
      case Some(ip4) => Some(Scan(written + ip4[12..16], e, []))
  }

  /**
   * The "expand ellipsis" step: the bytes before the ellipsis stay, the
   * bytes written after it move to the end of the 16-byte buffer, and the
   * gap between is zero.
   */
  function Expand(written: seq<Byte>, e: nat): (ip: seq<Byte>)
    requires e <= |written| <= IPv6Len
    ensures |ip| == IPv6Len
  {
    written[..e] + Zeros(IPv6Len - |written|) + written[e..]
  }

  /** `parseIPv6` as a value. */
  function Ipv6Spec(s: seq<Byte>): (r: Option<seq<Byte>>)
    ensures r.Some? ==> |r.value| == IPv6Len
  {
    var leading := |s| >= 2 && s[0] == Colon && s[1] == Colon;
    var t := if leading then s[2..] else s;
    var e := if leading then 0 else -1;
    if leading && |t| == 0 then Some(Zeros(IPv6Len)) else Finish(Groups(t, [], e))
  }

  /** The checks after the group loop of `parseIPv6`, and the ellipsis expansion. */
  function Finish(scan: Option<Scan>): (r: Option<seq<Byte>>)
    requires scan.Some? ==> |scan.value.written| <= IPv6Len
    requires scan.Some? ==> -1 <= scan.value.ellipsis <= |scan.value.written|
    ensures r.Some? ==> |r.value| == IPv6Len
  {
    match scan
    case None => None
    case Some(Scan(w, e, rest)) =>
      if |rest| != 0 then None
      else if |w| < IPv6Len then (if e < 0 then None else Some(Expand(w, e)))
      else if e >= 0 then None
      else Some(w)
  }

  /** A buffer that keeps the head, zero-fills the gap and ends with the tail is Expand's result. */
  lemma ExpandIs(a: seq<Byte>, w: seq<Byte>, e: nat, n: nat)
    requires e <= |w| < IPv6Len && |a| == IPv6Len && n == IPv6Len - |w|
    requires forall k | 0 <= k < e :: a[k] == w[k]
    requires forall m | e + n <= m < IPv6Len :: a[m] == w[m - n]
    requires forall k | e <= k < e + n :: a[k] == 0
    ensures a == Expand(w, e)
  {
    var x := Expand(w, e);
    forall k | 0 <= k < IPv6Len ensures a[k] == x[k] {
      if k < e {
        assert x[k] == w[..e][k];
      } else if k < e + n {
        assert x[k] == Zeros(n)[k - e];
      } else {
        assert x[k] == w[e..][k - e - n];
      }
    }
  }

  /**
   * The two loops that expand the ellipsis of `parseIPv6` in place: shift
   * `ip[ellipsis..i]` to the end of the buffer, last byte first, then zero
   * the gap.
   */
  method ExpandEllipsis(ip: array<Byte>, i: nat, ellipsis: nat)
    requires ip.Length == IPv6Len && ellipsis <= i < IPv6Len
    modifies ip
    ensures ip[..] == Expand(old(ip[..i]), ellipsis)
  {
    ghost var w := ip[..i];
    var n := IPv6Len - i;
    ShiftBack(ip, i, ellipsis);
    ghost var mid := ip[..];
    assert forall k | 0 <= k < ellipsis :: mid[k] == w[k];
    assert forall m | ellipsis + n <= m < IPv6Len :: mid[m] == w[m - n];
    ZeroGap(ip, ellipsis, n);
    ghost var a := ip[..];
    assert forall k | 0 <= k < ellipsis :: a[k] == mid[k];
    assert forall m | ellipsis + n <= m < IPv6Len :: a[m] == mid[m];
    assert forall k | ellipsis <= k < ellipsis + n :: a[k] == 0;
    ExpandIs(a, w, ellipsis, n);
  }

  /** The first loop: move `ip[ellipsis..i]` to the end of the buffer, last byte first. */
  method ShiftBack(ip: array<Byte>, i: nat, ellipsis: nat)
    requires ip.Length == IPv6Len && ellipsis <= i < IPv6Len
    modifies ip
    ensures forall k | 0 <= k < ellipsis + (IPv6Len - i) :: ip[k] == old(ip[k])
    ensures var n := IPv6Len - i; forall m | ellipsis + n <= m < IPv6Len :: ip[m] == old(ip[m - n])
  {
    var n := IPv6Len - i;
    var j := i - 1;
    while j >= ellipsis
      invariant ellipsis - 1 <= j <= i - 1
      invariant forall k | 0 <= k <= j + n :: ip[k] == old(ip[k])
      invariant forall m | j + n < m < IPv6Len :: ip[m] == old(ip[m - n])
    {
      ip[j + n] := ip[j];
      j := j - 1;
    }
  }

  /** The second loop: zero the `n` bytes from `ellipsis` on. */
  method ZeroGap(ip: array<Byte>, ellipsis: nat, n: nat)
    requires ellipsis + n <= ip.Length
    modifies ip
    ensures forall k | 0 <= k < ellipsis :: ip[k] == old(ip[k])
    ensures forall m | ellipsis + n <= m < ip.Length :: ip[m] == old(ip[m])
    ensures forall k | ellipsis <= k < ellipsis + n :: ip[k] == 0
  {
    var j := ellipsis + n - 1;
    while j >= ellipsis
      invariant ellipsis - 1 <= j <= ellipsis + n - 1
      invariant forall k | 0 <= k < ellipsis :: ip[k] == old(ip[k])
      invariant forall m | ellipsis + n <= m < ip.Length :: ip[m] == old(ip[m])
      invariant forall k | j < k < ellipsis + n :: ip[k] == 0
    {
      ip[j] := 0;
      j := j - 1;
    }
  }

  /**
   * The cursor of the group loop stays even. Kept apart so that the modulus
   * stays out of the callers' proof contexts.
   */
  lemma EvenSum(a: nat, b: nat)
    requires a % 2 == 0 && b % 2 == 0
    ensures (a + b) % 2 == 0
  {
  }

  /** How one round of the group loop of `parseIPv6` ends. */
  datatype Step = Reject | Continue | Stop

  /** The last four bytes of a 16-byte value, as a sequence; kept apart to keep Ipv4Tail small. */
  lemma LastFour(v: seq<Byte>)
    requires |v| == IPv6Len
    ensures v[12..16] == [v[12], v[13], v[14], v[15]]
  {
  }

  /** Writes four bytes into `ip` at `i`, leaving what is before `i` alone. */
  method PutBytes(ip: array<Byte>, i: nat, a: Byte, b: Byte, c: Byte, d: Byte)
    requires i + 4 <= ip.Length
    modifies ip
    ensures ip[..i + 4] == old(ip[..i]) + [a, b, c, d]
    ensures ip[i + 4..] == old(ip[i + 4..])
  {
    ip[i], ip[i + 1], ip[i + 2], ip[i + 3] := a, b, c, d;
    assert ip[i..i + 4] == [a, b, c, d];
    assert ip[..i + 4] == ip[..i] + ip[i..i + 4];
  }

  /**
   * The IPv4 tail of `parseIPv6`: when the group just read is followed by
   * a label separator, the rest of the input is parsed as IPv4 and its
   * four octets close the buffer.
   */
  method Ipv4Tail(ip: array<Byte>, t: seq<Byte>, i: nat, ellipsis: int, ghost written: seq<Byte>)
    returns (ok: bool, i': nat, ghost written': seq<Byte>)
    requires ip.Length == IPv6Len && i < IPv6Len && i % 2 == 0 && -1 <= ellipsis <= i
    requires |written| == i && ip[..i] == written
    modifies ip
    ensures !ok ==> TailScan(t, written, ellipsis) == None
    ensures ok ==> i' == i + IPv4Len <= IPv6Len && i' % 2 == 0
    ensures ok ==> |written'| == i' && ip[..i'] == written'
    ensures ok ==> TailScan(t, written, ellipsis) == Some(Scan(written', ellipsis, []))
  {
    EvenSum(i, IPv4Len);
    written', i' := written, i;
    if ellipsis < 0 && i != IPv6Len - IPv4Len {
      // a tail needs a `::` before it, or exactly six groups
      return false, i', written';
    }
    if i + IPv4Len > IPv6Len {
      // the four octets must fit in the buffer
      return false, i', written';
    }
    var ip4 := ParseIPv4(t);
    if ip4.None? {
      return false, i', written';
    }
    var v4 := ip4.value;
    ghost var tail := v4[12..16];
    LastFour(v4);
    PutBytes(ip, i, v4[12], v4[13], v4[14], v4[15]);
    written' := written + tail;
    i' := i + IPv4Len;
    ok := true;
  }

  /**
   * One round of the group loop of `parseIPv6`: read a group (or the IPv4
   * tail) at cursor `i`, write it into `ip`, and consume the colon or
   * `::` after it. `written` is what the buffer holds before the cursor.
   */
  method NextGroup(ip: array<Byte>, t: seq<Byte>, i: nat, ellipsis: int, ghost written: seq<Byte>)
    returns (step: Step, t': seq<Byte>, i': nat, ellipsis': int, ghost written': seq<Byte>)
    requires ip.Length == IPv6Len && i < IPv6Len && i % 2 == 0 && -1 <= ellipsis <= i
    requires |written| == i && ip[..i] == written
    modifies ip
    ensures step != Reject ==> i < i' <= IPv6Len
    ensures step != Reject ==> i' % 2 == 0
    ensures step != Reject ==> -1 <= ellipsis'
    ensures step != Reject ==> ellipsis' <= i'
    ensures step != Reject ==> |written'| == i' && ip[..i'] == written'
    ensures step == Reject ==> Groups(t, written, ellipsis) == None
    ensures step == Continue ==> Groups(t, written, ellipsis) == Groups(t', written', ellipsis')
    ensures step == Stop ==> Groups(t, written, ellipsis) == Some(Scan(written', ellipsis', t'))
  {
    t', i', ellipsis', written' := t, i, ellipsis, written;
    // the group's digits, as `xtoi` reads them
    var n, c, ok := Xtoi(t);
    if !ok || n > 0xFFFF {
      return Reject, t', i', ellipsis', written';
    }

    // digits then a separator: the start of a dotted-quad tail
    if c < |t| && SepLen(t[c..]) > 0 {
      assert Groups(t, written, ellipsis) == TailScan(t, written, ellipsis);
      var ok4, i4;
      ok4, i4, written' := Ipv4Tail(ip, t, i, ellipsis, written);
      if !ok4 {
        return Reject, t', i', ellipsis', written';
      }
      return Stop, [], i4, ellipsis, written';
    }

    step, t', i', ellipsis', written' := WriteGroup(ip, t, i, n, c, ellipsis, written);
  }

  /** The rest of one round of the group loop, once a group `n` of `c` digits is read. */
  method WriteGroup(ip: array<Byte>, t: seq<Byte>, i: nat, n: nat, c: nat, ellipsis: int, ghost written: seq<Byte>)
    returns (step: Step, t': seq<Byte>, i': nat, ellipsis': int, ghost written': seq<Byte>)
    requires ip.Length == IPv6Len && i < IPv6Len && i % 2 == 0 && -1 <= ellipsis <= i
    requires |written| == i && ip[..i] == written
    requires NumberPrefix(t, 16) == Some((n, c)) && n <= 0xFFFF
    requires !(c < |t| && SepLen(t[c..]) > 0)
    modifies ip
    ensures step != Reject ==> i < i' <= IPv6Len
    ensures step != Reject ==> i' % 2 == 0
    ensures step != Reject ==> -1 <= ellipsis'
    ensures step != Reject ==> ellipsis' <= i'
    ensures step != Reject ==> |written'| == i' && ip[..i'] == written'
    ensures step == Reject ==> Groups(t, written, ellipsis) == None
    ensures step == Continue ==> Groups(t, written, ellipsis) == Groups(t', written', ellipsis')
    ensures step == Stop ==> Groups(t, written, ellipsis) == Some(Scan(written', ellipsis', t'))
  {
    EvenSum(i, 2);
    // two bytes, high first
    ip[i] := n / 256;
    ip[i + 1] := n % 256;
    written' := written + GroupBytes(n);
    assert ip[..i + 2] == written';
    i' := i + 2;
    assert Groups(t, written, ellipsis) == AfterGroup(t[c..], written', ellipsis);
    step, t', ellipsis' := ReadSeparator(t[c..], i', written', ellipsis);
  }

  /**
   * The end of one round of the group loop of `parseIPv6`: stop at the end
   * of the input, otherwise require a colon and more, and note a first `::`.
   */
  method ReadSeparator(t1: seq<Byte>, i: nat, ghost w: seq<Byte>, ellipsis: int)
    returns (step: Step, t': seq<Byte>, ellipsis': int)
    requires |w| == i <= IPv6Len && i % 2 == 0 && -1 <= ellipsis <= i
    ensures step != Reject ==> -1 <= ellipsis' <= |w|
    ensures step == Reject ==> AfterGroup(t1, w, ellipsis) == None
    ensures step == Continue ==> AfterGroup(t1, w, ellipsis) == Groups(t', w, ellipsis')
    ensures step == Stop ==> AfterGroup(t1, w, ellipsis) == Some(Scan(w, ellipsis', t'))
  {
    t', ellipsis' := t1, ellipsis;

    // no input left: the loop ends here
    if |t'| == 0 {
      return Stop, t', ellipsis';
    }

    // a group is followed by `:` and at least one more byte
    if t'[0] != Colon || |t'| == 1 {
      return Reject, t', ellipsis';
    }
    t' := t'[1..];

    // a second `:` marks the one ellipsis
    if t'[0] == Colon {
      if ellipsis >= 0 { // a second ellipsis
        return Reject, t', ellipsis';
      }
      ellipsis' := i;
      t' := t'[1..];
      if |t'| == 0 { // `::` ends the input
        return Stop, t', ellipsis';
      }
    }
    step := Continue;
  }

  /**
   * `parseIPv6`: an optional leading `::`, then a loop that writes 16-bit
   * groups into a 16-byte buffer through the cursor `i`, notes the first
   * `::` in `ellipsis` and may end with an IPv4 tail; then the checks and
   * the in-place ellipsis expansion.
   */
  method ParseIPv6(s: seq<Byte>) returns (r: Option<seq<Byte>>)
    ensures r == Ipv6Spec(s)
  {
    var ip := new Byte[IPv6Len](_ => 0);
    var ellipsis := -1; // -1 until a `::` is read
    var t := s;

    // `::` at the very start
    if |t| >= 2 && t[0] == Colon && t[1] == Colon {
      ellipsis := 0;
      t := t[2..];
      // `::` alone: the all-zero address
      if |t| == 0 {
        assert ip[..] == Zeros(IPv6Len);
        return Some(ip[..]);
      }
    }
    ghost var start := Groups(t, [], ellipsis);
    assert Ipv6Spec(s) == Finish(start);

    // one group (or the IPv4 tail) per round, until 16 bytes are written
    ghost var written: seq<Byte> := [];
    var i := 0;
    var step := Continue;
    while i < IPv6Len && step == Continue
      invariant 0 <= i <= IPv6Len && i % 2 == 0 && -1 <= ellipsis <= i
      invariant |written| == i && ip[..i] == written
      invariant step != Reject
      invariant step == Continue ==> start == Groups(t, written, ellipsis)
      invariant step == Stop ==> start == Some(Scan(written, ellipsis, t))
      decreases IPv6Len - i, if step == Continue then 1 else 0
    {
      step, t, i, ellipsis, written := NextGroup(ip, t, i, ellipsis, written);
      if step == Reject {
        return None;
      }
    }
    assert start == Some(Scan(written, ellipsis, t));

    // no input may be left over
    if |t| != 0 {
      return None;
    }

    // fewer than 16 bytes: only an ellipsis can make up the rest
    if i < IPv6Len {
      if ellipsis < 0 {
        return None;
      }
      ExpandEllipsis(ip, i, ellipsis);
      assert ip[..] == Expand(written, ellipsis);
    } else if ellipsis >= 0 {
      // 16 bytes and an ellipsis: the ellipsis would stand for nothing
      return None;
    } else {
      assert ip[..] == ip[..IPv6Len] == written;
    }
    return Some(ip[..]);
  }

  // ---------------------------------------------------------------------
  // parseIP and looksLikeIPAddress

  /** A label separator or a colon starts at byte `k` of `s`. */
  predicate IsDelimiterAt(s: seq<Byte>, k: nat)
    requires k < |s|
  {
    SepLen(s[k..]) > 0 || s[k] == Colon
  }

  /** The first delimiter at or after `k`, or -1 when there is none. */
  function FirstDelimiterFrom(s: seq<Byte>, k: nat): (d: int)
    requires k <= |s|
    ensures d == -1 || k <= d < |s|
    ensures d >= 0 ==> IsDelimiterAt(s, d)
    ensures forall j | k <= j < (if d < 0 then |s| else d) :: !IsDelimiterAt(s, j)
    decreases |s| - k
  {
    if k == |s| then -1
    else if IsDelimiterAt(s, k) then k
    else FirstDelimiterFrom(s, k + 1)
  }

  function FirstDelimiter(s: seq<Byte>): int {
    FirstDelimiterFrom(s, 0)
  }

  /** A delimiter with none before it is the first one. */
  lemma FirstDelimiterIs(s: seq<Byte>, c: nat)
    requires c < |s| && IsDelimiterAt(s, c)
    requires forall j | 0 <= j < c :: !IsDelimiterAt(s, j)
    ensures FirstDelimiter(s) == c
  {
  }

  /**
   * `parseIP` as a value: the first label separator or colon decides
   * between the IPv4 and the IPv6 reader, and with neither the input is
   * no address.
   */
  function IpSpec(s: seq<Byte>): (r: Option<seq<Byte>>)
    ensures r.Some? ==> |r.value| == IPv6Len
  {
    var d := FirstDelimiter(s);
    if d < 0 then None
    else if SepLen(s[d..]) > 0 then Ipv4Spec(s)
    else Ipv6Spec(s)
  }

  /**
   * `parseIP`: hand the whole input to `parseIPv4` at the first label
   * separator, or to `parseIPv6` at the first colon.
   */
  method ParseIP(s: seq<Byte>) returns (r: Option<seq<Byte>>)
    ensures r == IpSpec(s)
  {
    var k := 0;
    while k < |s|
      invariant 0 <= k <= |s|
      invariant FirstDelimiter(s) == FirstDelimiterFrom(s, k)
    {
      if SepLen(s[k..]) > 0 {
        r := ParseIPv4(s);
        return;
      }
      if s[k] == Colon {
        r := ParseIPv6(s);
        return;
      }
      k := k + 1;
    }
    return None;
  }

  /** No hexadecimal digit starts a delimiter. */
  lemma HexDigitNoDelimiter(s: seq<Byte>, j: nat)
    requires j < |s| && IsHexDigit(s[j])
    ensures !IsDelimiterAt(s, j)
  {
  }

  /** An accepted dotted quad starts with an octet followed by a label separator. */
  lemma FirstOctet(s: seq<Byte>)
    requires Ipv4Spec(s).Some?
    ensures Octet(s).Some? && Octet(s).value.1 < |s|
    ensures SepLen(s[Octet(s).value.1..]) > 0
  {
    assert OctetsFrom(s, 0).Some?;
    var c := Octet(s).value.1;
    assert OctetsFrom(s[c..], 1).Some?;
  }

  /** A dotted quad that `parseIPv4` accepts has a label separator as its first delimiter. */
  lemma Ipv4FirstDelimiter(s: seq<Byte>)
    requires Ipv4Spec(s).Some?
    ensures FirstDelimiter(s) >= 0 && SepLen(s[FirstDelimiter(s)..]) > 0
  {
    FirstOctet(s);
    var c := Octet(s).value.1;
    var n := DigitRun(s, 10);
    assert c == n;
    forall j | 0 <= j < c
      ensures !IsDelimiterAt(s, j)
    {
      assert s[..n][j] == s[j];
      HexDigitNoDelimiter(s, j);
    }
    FirstDelimiterIs(s, c);
  }

  /** An address that `parseIPv6` accepts has a colon as its first delimiter. */
  lemma Ipv6FirstDelimiter(s: seq<Byte>)
    requires Ipv6Spec(s).Some?
    ensures FirstDelimiter(s) >= 0 && s[FirstDelimiter(s)] == Colon
  {
    if |s| >= 2 && s[0] == Colon && s[1] == Colon {
      FirstDelimiterIs(s, 0);
    } else {
      var g := Groups(s, [], -1);
      assert g.Some?;
      var c := NumberPrefix(s, 16).value.1;
      var n := DigitRun(s, 16);
      assert c == n;
      forall j | 0 <= j < c
        ensures !IsDelimiterAt(s, j)
      {
        assert s[..n][j] == s[j];
        HexDigitNoDelimiter(s, j);
      }
      assert c < |s| && s[c] == Colon;
      FirstDelimiterIs(s, c);
    }
  }

  /**
   * `parseIP` accepts exactly what one of the two readers accepts, with
   * the same result: no input is accepted by both.
   */
  lemma IpSpecEither(s: seq<Byte>)
    ensures IpSpec(s) == (if Ipv4Spec(s).Some? then Ipv4Spec(s) else Ipv6Spec(s))
  {
    if Ipv4Spec(s).Some? {
      Ipv4FirstDelimiter(s);
    } else if Ipv6Spec(s).Some? {
      Ipv6FirstDelimiter(s);
    }
  }

  /** `looksLikeIPAddress`: `parseIP` accepts the input. */
  method LooksLikeIpAddress(s: seq<Byte>) returns (b: bool)
    ensures b <==> Ipv4Spec(s).Some? || Ipv6Spec(s).Some?
  {
    var ip := ParseIP(s);
    IpSpecEither(s);
    b := ip.Some?;
  }
}
