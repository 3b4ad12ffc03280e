/**
 * What `parseIPv4` accepts, stated without reference to the parser: four
 * octets written in decimal without leading zeros, joined by label
 * separators (any of the four, one per gap). Accepted text and dotted
 * quads are the same thing, in both directions.
 */
module NetIpv4Proofs {
  import opened Types
  import opened Net

  /** The text of one octet: decimal, no leading zero unless it is "0". */
  function DecText(v: Byte): (t: seq<Byte>)
    ensures 1 <= |t| <= 3 && AllInBase(t, 10)
    ensures |t| > 1 ==> t[0] != Zero
  {
    if v < 10 then [48 + v]
    else if v < 100 then [48 + v / 10, 48 + v % 10]
    else [48 + v / 100, 48 + v / 10 % 10, 48 + v % 10]
  }

  /** The UTF-8 text of the four label separators (full stop, ideographic, fullwidth and halfwidth). */
  predicate IsSeparator(sep: seq<Byte>) {
    || sep == [0x2E]
    || sep == [0xE3, 0x80, 0x82]
    || sep == [0xEF, 0xBC, 0x8E]
    || sep == [0xEF, 0xBD, 0xA1]
  }

  predicate AllSeparators(seps: seq<seq<Byte>>) {
    forall k | 0 <= k < |seps| :: IsSeparator(seps[k])
  }

  /** Octets after the first, each preceded by its separator. */
  function SepText(os: seq<Byte>, seps: seq<seq<Byte>>): seq<Byte>
    requires |os| == |seps|
  {
    if os == [] then [] else seps[0] + DecText(os[0]) + SepText(os[1..], seps[1..])
  }

  /** A dotted quad. */
  function Dotted(o: seq<Byte>, seps: seq<seq<Byte>>): seq<Byte>
    requires |o| == IPv4Len && |seps| == IPv4Len - 1
  {
    DecText(o[0]) + SepText(o[1..], seps)
  }

  lemma DecTextValue(v: Byte)
    ensures Value(DecText(v), 10) == v
  {
    var t := DecText(v);
    assert Value(t[..0], 10) == 0;
    if |t| >= 2 {
      assert Value(t[..1], 10) == DigitValue(t[0]) by {
        assert t[..1][..0] == t[..0];
      }
      assert Value(t[..2], 10) == DigitValue(t[0]) * 10 + DigitValue(t[1]) by {
        assert t[..2][..1] == t[..1];
      }
    }
    if |t| == 3 {
      assert Value(t, 10) == Value(t[..2], 10) * 10 + DigitValue(t[2]) by {
        assert t[..2] == t[..|t| - 1];
      }
    } else if |t| == 2 {
      assert t == t[..2];
    } else {
      assert t == t[..1] && Value(t[..1], 10) == Value(t[..0], 10) * 10 + DigitValue(t[0]);
    }
  }

  /** A separator is recognised with its full length, whatever follows it. */
  lemma SepLenOfSeparator(sep: seq<Byte>, rest: seq<Byte>)
    requires IsSeparator(sep)
    ensures SepLen(sep + rest) == |sep|
  {
    if |sep| == 3 {
      assert (sep + rest)[..3] == sep;
    }
  }

  /** What SepLen recognises is a separator. */
  lemma SeparatorOfSepLen(s: seq<Byte>)
    requires SepLen(s) > 0
    ensures IsSeparator(s[..SepLen(s)])
  {
  }

  /** Text after an octet starts with a non-digit, or is empty. */
  lemma SepTextStart(os: seq<Byte>, seps: seq<seq<Byte>>)
    requires |os| == |seps| && AllSeparators(seps)
    ensures SepText(os, seps) == [] || !IsHexDigit(SepText(os, seps)[0])
  {
    if os != [] {
      assert IsSeparator(seps[0]);
    }
  }

  /** An octet's text, followed by a non-digit, is read back as that octet. */
  lemma OctetOfDecText(v: Byte, rest: seq<Byte>)
    requires rest == [] || !IsDigit(rest[0])
    ensures Octet(DecText(v) + rest) == Some((v, |DecText(v)|))
  {
    var t := DecText(v);
    var s := t + rest;
    assert s[..|t|] == t;
    DigitRunIs(s, 10, |t|);
    DecTextValue(v);
  }

  /** The decimal text of a two-digit number. */
  lemma DecTextOfTwo(x: nat, y: nat)
    requires 1 <= x <= 9 && y <= 9
    ensures DecText(x * 10 + y) == [48 + x, 48 + y]
  {
    var v := x * 10 + y;
    assert v / 10 == x && v % 10 == y;
  }

  /** The decimal text of a three-digit octet. */
  lemma DecTextOfThree(x: nat, y: nat, z: nat)
    requires 1 <= x <= 9 && y <= 9 && z <= 9 && x * 100 + y * 10 + z <= 0xFF
    ensures DecText(x * 100 + y * 10 + z) == [48 + x, 48 + y, 48 + z]
  {
    var v := x * 100 + y * 10 + z;
    assert v / 100 == x && v / 10 == x * 10 + y && v % 10 == z;
    assert (x * 10 + y) % 10 == y;
  }

  lemma TwoDigitText(d: seq<Byte>)
    requires |d| == 2 && AllInBase(d, 10) && d[0] != Zero && Value(d, 10) <= 0xFF
    ensures DecText(Value(d, 10)) == d
  {
    assert forall k | 0 <= k < |d| :: d[k] == 48 + DigitValue(d[k]);
    var x, y := DigitValue(d[0]), DigitValue(d[1]);
    assert d[..1][..0] == [] && d[..1] == [d[0]];
    assert Value(d[..1], 10) == x;
    assert Value(d, 10) == x * 10 + y;
    DecTextOfTwo(x, y);
  }

  lemma ThreeDigitText(d: seq<Byte>)
    requires |d| == 3 && AllInBase(d, 10) && d[0] != Zero && Value(d, 10) <= 0xFF
    ensures DecText(Value(d, 10)) == d
  {
    assert forall k | 0 <= k < |d| :: d[k] == 48 + DigitValue(d[k]);
    var x, y, z := DigitValue(d[0]), DigitValue(d[1]), DigitValue(d[2]);
    assert d[..2][..1][..0] == [] && d[..2][..1] == [d[0]];
    assert Value(d[..2], 10) == x * 10 + y;
    assert Value(d, 10) == x * 100 + y * 10 + z;
    DecTextOfThree(x, y, z);
  }

  /** DecText is the only digit text, without a leading zero, of its octet. */
  lemma DecTextOfDigits(d: seq<Byte>)
    requires 1 <= |d| <= 3 && AllInBase(d, 10) && (|d| > 1 ==> d[0] != Zero)
    requires Value(d, 10) <= 0xFF
    ensures DecText(Value(d, 10)) == d
  {
    if |d| == 1 {
      assert forall k | 0 <= k < |d| :: d[k] == 48 + DigitValue(d[k]);
      assert d[..0] == [];
    } else if |d| == 2 {
      TwoDigitText(d);
    } else {
      ThreeDigitText(d);
    }
  }

  /** Four digits that do not start with zero denote at least 1000. */
  lemma FourDigitsTooBig(s: seq<Byte>)
    requires 4 <= |s| && AllInBase(s[..4], 10) && s[0] != Zero
    ensures Value(s[..4], 10) >= 1000
  {
    assert s[..0] == [];
    ValueSnoc(s, 10, 0);
    ValueSnoc(s, 10, 1);
    ValueSnoc(s, 10, 2);
    ValueSnoc(s, 10, 3);
  }

  /** A read octet was written as its DecText. */
  lemma DecTextOfOctet(s: seq<Byte>)
    requires Octet(s).Some?
    ensures var (v, c) := Octet(s).value; c == |DecText(v)| <= |s| && s[..c] == DecText(v)
  {
    var (v, c) := Octet(s).value;
    assert c == DigitRun(s, 10) && v == Value(s[..c], 10);
    if c >= 4 {
      FourDigitsTooBig(s);
      ValueMonotone(s, 10, 4, c);
      assert false;
    }
    DecTextOfDigits(s[..c]);
  }

  /** A separator, the text of an octet, and what follows it. */
  lemma SepOctetStep(s: seq<Byte>, sep: seq<Byte>, t: seq<Byte>, r: seq<Byte>, v: Byte, i: nat, j: nat)
    requires s == sep + (t + r) && 0 < i < IPv4Len && j == i + 1
    requires SepLen(s) == |sep| > 0 && Octet(t + r) == Some((v, |t|))
    ensures OctetsFrom(s, i) == Prepend([v], OctetsFrom(r, j))
  {
    assert s[|sep|..] == t + r;
    assert (t + r)[|t|..] == r;
    OctetsFromStep(s, i, |sep|, v, |t|);
  }

  /** SepText with at least one octet: a separator, the octet's text, then the rest. */
  lemma SepTextParts(os: seq<Byte>, seps: seq<seq<Byte>>)
    requires 0 < |os| == |seps| && AllSeparators(seps)
    ensures var t, r := DecText(os[0]), SepText(os[1..], seps[1..]);
      && SepText(os, seps) == seps[0] + (t + r)
      && SepLen(SepText(os, seps)) == |seps[0]| > 0
      && Octet(t + r) == Some((os[0], |t|))
  {
    var t := DecText(os[0]);
    var r := SepText(os[1..], seps[1..]);
    assert SepText(os, seps) == seps[0] + (t + r);
    SepLenOfSeparator(seps[0], t + r);
    SepTextStart(os[1..], seps[1..]);
    OctetOfDecText(os[0], r);
  }

  /** Reading one separator-led octet off SepText. */
  lemma SepTextStep(os: seq<Byte>, seps: seq<seq<Byte>>)
    requires 0 < |os| == |seps| <= IPv4Len - 1 && AllSeparators(seps)
    ensures OctetsFrom(SepText(os, seps), IPv4Len - |os|)
         == Prepend([os[0]], OctetsFrom(SepText(os[1..], seps[1..]), IPv4Len - |os[1..]|))
  {
    SepTextParts(os, seps);
    SepOctetStep(SepText(os, seps), seps[0], DecText(os[0]), SepText(os[1..], seps[1..]),
      os[0], IPv4Len - |os|, IPv4Len - |os[1..]|);
  }

  /** The inductive step of OctetsFromSepText. */
  lemma SepTextInduct(os: seq<Byte>, seps: seq<seq<Byte>>)
    requires 0 < |os| == |seps| <= IPv4Len - 1 && AllSeparators(seps)
    requires OctetsFrom(SepText(os[1..], seps[1..]), IPv4Len - |os[1..]|) == Some(os[1..])
    ensures OctetsFrom(SepText(os, seps), IPv4Len - |os|) == Some(os)
  {
    SepTextStep(os, seps);
    PrependSome(os);
  }

  lemma PrependSome(os: seq<Byte>)
    requires os != []
    ensures Prepend([os[0]], Some(os[1..])) == Some(os)
  {
    assert [os[0]] + os[1..] == os;
  }

  lemma SeparatorsTail(seps: seq<seq<Byte>>)
    requires seps != [] && AllSeparators(seps)
    ensures IsSeparator(seps[0]) && AllSeparators(seps[1..])
  {
    assert forall k | 0 <= k < |seps| - 1 :: seps[1..][k] == seps[k + 1];
  }

  /** The octets after the first are read back from their text. */
  lemma {:induction false} OctetsFromSepText(os: seq<Byte>, seps: seq<seq<Byte>>)
    requires |os| == |seps| <= IPv4Len - 1 && AllSeparators(seps)
    ensures OctetsFrom(SepText(os, seps), IPv4Len - |os|) == Some(os)
    decreases |os|
  {
    if os != [] {
      SeparatorsTail(seps);
      OctetsFromSepText(os[1..], seps[1..]);
      SepTextInduct(os, seps);
    }
  }

  /** Round trip: a dotted quad is read back as its four octets. */
  lemma Ipv4RoundTrip(o: seq<Byte>, seps: seq<seq<Byte>>)
    requires |o| == IPv4Len && |seps| == IPv4Len - 1 && AllSeparators(seps)
    ensures Ipv4Spec(Dotted(o, seps)) == Some(MappedV4(o[0], o[1], o[2], o[3]))
  {
    var t := DecText(o[0]);
    var r := SepText(o[1..], seps);
    var s := t + r;
    SepTextStart(o[1..], seps);
    OctetOfDecText(o[0], r);
    assert s[|t|..] == r;
    OctetsFromSepText(o[1..], seps);
    assert [o[0]] + o[1..] == o;
    assert OctetsFrom(s, 0) == Some(o);
  }

  /** SepText of one more octet, with its separator. */
  lemma SepTextCons(sep: seq<Byte>, v: Byte, rest: seq<Byte>, more: seq<seq<Byte>>)
    requires |rest| == |more| && IsSeparator(sep) && AllSeparators(more)
    ensures AllSeparators([sep] + more)
    ensures SepText([v] + rest, [sep] + more) == sep + DecText(v) + SepText(rest, more)
  {
    assert ([v] + rest)[1..] == rest && ([sep] + more)[1..] == more;
    forall k | 0 <= k < |more| + 1
      ensures IsSeparator(([sep] + more)[k])
    {
      if k > 0 {
        assert ([sep] + more)[k] == more[k - 1];
      }
    }
  }

  lemma SplitThree(s: seq<Byte>, a: nat, b: nat)
    requires a <= |s| && b <= |s| - a
    ensures s == s[..a] + s[a..][..b] + s[a..][b..]
  {
    assert s[a..] == s[a..][..b] + s[a..][b..];
  }

  /** An accepted separator-led octet, and what follows it. */
  lemma OctetsFromParts(s: seq<Byte>, i: nat)
    requires 0 < i < IPv4Len && OctetsFrom(s, i).Some?
    ensures SepLen(s) > 0 && Octet(s[SepLen(s)..]).Some?
    ensures var u := s[SepLen(s)..]; var (v, c) := Octet(u).value;
      && c <= |u|
      && OctetsFrom(u[c..], i + 1).Some?
      && OctetsFrom(s, i).value == [v] + OctetsFrom(u[c..], i + 1).value
  {
  }

  /** Octets after the first: what OctetsFrom accepts is separator-led octet text. */
  lemma {:induction false} SepTextOf(s: seq<Byte>, i: nat) returns (seps: seq<seq<Byte>>)
    requires 0 < i <= IPv4Len && OctetsFrom(s, i).Some?
    ensures |seps| == IPv4Len - i && AllSeparators(seps)
    ensures s == SepText(OctetsFrom(s, i).value, seps)
    decreases IPv4Len - i
  {
    if i == IPv4Len {
      seps := [];
    } else {
      OctetsFromParts(s, i);
      var sep := SepLen(s);
      SeparatorOfSepLen(s);
      var u := s[sep..];
      var (v, c) := Octet(u).value;
      DecTextOfOctet(u);
      var r := u[c..];
      var rest := OctetsFrom(r, i + 1).value;
      var more := SepTextOf(r, i + 1);
      seps := [s[..sep]] + more;
      SepTextCons(s[..sep], v, rest, more);
      SplitThree(s, sep, c);
    }
  }

  /** The first octet of an accepted dotted quad, and what follows it. */
  lemma OctetsFromFirst(s: seq<Byte>)
    requires Ipv4Spec(s).Some?
    ensures Octet(s).Some? && Octet(s).value.1 <= |s|
    ensures var (v, c) := Octet(s).value;
      && OctetsFrom(s[c..], 1).Some?
      && OctetsFrom(s, 0).value == [v] + OctetsFrom(s[c..], 1).value
      && Ipv4Spec(s).value == MappedV4(v, OctetsFrom(s[c..], 1).value[0],
                                       OctetsFrom(s[c..], 1).value[1], OctetsFrom(s[c..], 1).value[2])
  {
    assert OctetsFrom(s, 0).Some?;
  }

  /** Soundness: every text `parseIPv4` accepts is a dotted quad of the octets it returns. */
  lemma Ipv4Sound(s: seq<Byte>) returns (o: seq<Byte>, seps: seq<seq<Byte>>)
    requires Ipv4Spec(s).Some?
    ensures |o| == IPv4Len && |seps| == IPv4Len - 1 && AllSeparators(seps)
    ensures s == Dotted(o, seps)
    ensures Ipv4Spec(s) == Some(MappedV4(o[0], o[1], o[2], o[3]))
  {
    OctetsFromFirst(s);
    var (v, c) := Octet(s).value;
    DecTextOfOctet(s);
    var r := s[c..];
    seps := SepTextOf(r, 1);
    o := [v] + OctetsFrom(r, 1).value;
    assert o[1..] == OctetsFrom(r, 1).value;
    assert s == s[..c] + r;
  }

  /** A second digit after a leading zero is rejected. */
  lemma LeadingZeroRejected(d: Byte, rest: seq<Byte>)
    requires IsDigit(d)
    ensures Ipv4Spec([Zero, d] + rest) == None
  {
    var s := [Zero, d] + rest;
    assert s[..2] == [Zero, d];
    assert DigitRun(s, 10) >= 2 by {
      assert DigitRun(s[1..], 10) >= 1;
    }
  }

  /** `parseIP` hands a dotted quad to the IPv4 reader. */
  lemma ParseIpDotted(o: seq<Byte>, seps: seq<seq<Byte>>)
    requires |o| == IPv4Len && |seps| == IPv4Len - 1 && AllSeparators(seps)
    ensures IpSpec(Dotted(o, seps)) == Some(MappedV4(o[0], o[1], o[2], o[3]))
  {
    Ipv4RoundTrip(o, seps);
    IpSpecEither(Dotted(o, seps));
  }
}
