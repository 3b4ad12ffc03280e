/**
 * The dotted-quad tail of `parseIPv6` (section 2.2 of RFC 4291, form 3):
 * where it may stand, what it writes, and that the IPv4-mapped text
 * `::ffff:a.b.c.d` is read as the same address `parseIPv4` gives for
 * `a.b.c.d`.
 */
module NetIpv6TailProofs {
  import opened Types
  import opened Net
  import opened NetIpv4Proofs
  import opened NetIpv6Proofs

  /** 16 to the power `n`. */
  function Pow16(n: nat): (p: nat)
    ensures p >= 1
  {
    if n == 0 then 1 else 16 * Pow16(n - 1)
  }

  /** `n` hexadecimal digits denote less than 16 to the power `n`. */
  lemma {:induction false} HexValueBound(d: seq<Byte>)
    requires AllInBase(d, 16)
    ensures Value(d, 16) < Pow16(|d|)
    decreases |d|
  {
    if d != [] {
      var p := d[..|d| - 1];
      assert forall k | 0 <= k < |p| :: p[k] == d[k];
      HexValueBound(p);
    }
  }

  /** The decimal text of an octet, read as hexadecimal, is a small group. */
  lemma DecTextAsHex(v: Byte)
    ensures AllInBase(DecText(v), 16) && Value(DecText(v), 16) < 4096
  {
    var t := DecText(v);
    assert forall k | 0 <= k < |t| :: InBase(t[k], 10);
    HexValueBound(t);
    assert Pow16(3) == 4096;
  }

  /** The text after the first octet of a dotted quad starts with a separator. */
  lemma SepTextFirst(o: seq<Byte>, seps: seq<seq<Byte>>)
    requires |o| == IPv4Len && |seps| == IPv4Len - 1 && AllSeparators(seps)
    ensures SepText(o[1..], seps) != [] && SepLen(SepText(o[1..], seps)) > 0
    ensures !IsHexDigit(SepText(o[1..], seps)[0])
  {
    var os := o[1..];
    var more := DecText(os[0]) + SepText(os[1..], seps[1..]);
    assert IsSeparator(seps[0]);
    assert SepText(os, seps) == seps[0] + more;
    SepLenOfSeparator(seps[0], more);
    SepTextStart(os, seps);
  }

  /**
   * Read as a hexadecimal group, a dotted quad gives the digits of its
   * first octet, a value within 0xFFFF, and stops at a separator.
   */
  lemma DottedHexPrefix(o: seq<Byte>, seps: seq<seq<Byte>>)
    requires |o| == IPv4Len && |seps| == IPv4Len - 1 && AllSeparators(seps)
    ensures var s := Dotted(o, seps); var c := |DecText(o[0])|;
      NumberPrefix(s, 16).Some? && NumberPrefix(s, 16).value.0 <= 0xFFFF
      && NumberPrefix(s, 16).value.1 == c && c < |s| && SepLen(s[c..]) > 0
  {
    var t := DecText(o[0]);
    var r := SepText(o[1..], seps);
    var s := t + r;
    SepTextFirst(o, seps);
    DecTextAsHex(o[0]);
    assert s[..|t|] == t && s[|t|..] == r;
    DigitRunIs(s, 16, |t|);
  }

  /** The last four bytes of the mapped form are the octets. */
  lemma MappedTail(o: seq<Byte>)
    requires |o| == IPv4Len
    ensures MappedV4(o[0], o[1], o[2], o[3])[12..16] == o
  {
  }

  /**
   * A dotted quad where the group loop expects a group: accepted only
   * after a `::` or with exactly 12 bytes written, and only with room for
   * four more bytes; its octets are then written and the loop stops.
   */
  lemma TailAt(o: seq<Byte>, seps: seq<seq<Byte>>, w: seq<Byte>, e: int)
    requires |o| == IPv4Len && |seps| == IPv4Len - 1 && AllSeparators(seps) && Room(w, e)
    ensures Groups(Dotted(o, seps), w, e)
         == if (e < 0 && |w| != IPv6Len - IPv4Len) || |w| + IPv4Len > IPv6Len then None
            else Some(Scan(w + o, e, []))
  {
    DottedHexPrefix(o, seps);
    Ipv4RoundTrip(o, seps);
    MappedTail(o);
  }

  /** The mapped prefix, spelled out. */
  lemma MappedBytes(o: seq<Byte>)
    requires |o| == IPv4Len
    ensures Zeros(10) + ([0xff, 0xff] + o) == MappedV4(o[0], o[1], o[2], o[3])
  {
    var a := Zeros(10) + ([0xff, 0xff] + o);
    var b := MappedV4(o[0], o[1], o[2], o[3]);
    assert forall k | 0 <= k < IPv6Len :: a[k] == b[k];
  }

  lemma AllOnes()
    ensures GroupBytes(0xFFFF) == [0xff, 0xff]
  {
  }

  /** After `::`, a spelling of 0xFFFF, a colon and a dotted quad: where the loop stops. */
  lemma MappedScan(f: GroupText, o: seq<Byte>, seps: seq<seq<Byte>>)
    requires GroupValue(f) == 0xFFFF
    requires |o| == IPv4Len && |seps| == IPv4Len - 1 && AllSeparators(seps)
    ensures Groups(f + [Colon] + Dotted(o, seps), [], 0) == Some(Scan([0xff, 0xff] + o, 0, []))
  {
    var d := Dotted(o, seps);
    assert d[0] == DecText(o[0])[0];
    GroupColon(f, d, [], 0);
    AllOnes();
    NoPrefix(GroupBytes(GroupValue(f)));
    TailAt(o, seps, [0xff, 0xff], 0);
  }

  /**
   * The IPv4-mapped text `::ffff:a.b.c.d`, with `ffff` written in any
   * spelling of 0xFFFF (`FFFF`, `0ffff`, ...), is read as the address
   * `parseIPv4` gives for `a.b.c.d`.
   */
  lemma MappedForm(f: GroupText, o: seq<Byte>, seps: seq<seq<Byte>>)
    requires GroupValue(f) == 0xFFFF
    requires |o| == IPv4Len && |seps| == IPv4Len - 1 && AllSeparators(seps)
    ensures Ipv6Spec([Colon, Colon] + (f + [Colon] + Dotted(o, seps)))
         == Ipv4Spec(Dotted(o, seps))
  {
    var ff: seq<Byte> := [0xff, 0xff];
    MappedScan(f, o, seps);
    Ipv6SpecLeading(f + [Colon] + Dotted(o, seps), Some(Scan(ff + o, 0, [])));
    FinishFront(ff + o);
    MappedBytes(o);
    Ipv4RoundTrip(o, seps);
  }

  /** Six groups and a dotted quad: the full form with an IPv4 tail. */
  lemma SixGroupsAndTail(gs: seq<GroupText>, o: seq<Byte>, seps: seq<seq<Byte>>)
    requires |gs| == 6 && |o| == IPv4Len && |seps| == IPv4Len - 1 && AllSeparators(seps)
    ensures Ipv6Spec(Join(gs) + [Colon] + Dotted(o, seps)) == Some(Bytes(gs) + o)
  {
    var d := Dotted(o, seps);
    var s := Join(gs) + [Colon] + d;
    assert d[0] == DecText(o[0])[0];
    JoinColon(gs, d, [], -1);
    NoPrefix(Bytes(gs));
    TailAt(o, seps, Bytes(gs), -1);
    assert s[0] == Join(gs)[0];
    Ipv6SpecPlain(s, Some(Scan(Bytes(gs) + o, -1, [])));
  }

  /** Without `::`, one to seven groups then a dotted quad: only six fit. */
  lemma ShortTail(gs: seq<GroupText>, o: seq<Byte>, seps: seq<seq<Byte>>)
    requires 0 < |gs| <= 7 && |gs| != 6
    requires |o| == IPv4Len && |seps| == IPv4Len - 1 && AllSeparators(seps)
    ensures Ipv6Spec(Join(gs) + [Colon] + Dotted(o, seps)) == None
  {
    var d := Dotted(o, seps);
    var s := Join(gs) + [Colon] + d;
    assert d[0] == DecText(o[0])[0];
    JoinColon(gs, d, [], -1);
    NoPrefix(Bytes(gs));
    TailAt(o, seps, Bytes(gs), -1);
    assert s[0] == Join(gs)[0];
    Ipv6SpecPlain(s, None);
  }

  /** A dotted quad alone is not an IPv6 text. */
  lemma BareTail(o: seq<Byte>, seps: seq<seq<Byte>>)
    requires |o| == IPv4Len && |seps| == IPv4Len - 1 && AllSeparators(seps)
    ensures Ipv6Spec(Dotted(o, seps)) == None
  {
    var d := Dotted(o, seps);
    assert d[0] == DecText(o[0])[0];
    TailAt(o, seps, [], -1);
    Ipv6SpecPlain(d, None);
  }

  /**
   * Without `::`, a dotted quad after any number of groups other than six
   * (none included) is rejected.
   */
  lemma MisplacedTail(gs: seq<GroupText>, o: seq<Byte>, seps: seq<seq<Byte>>)
    requires |gs| != 6
    requires |o| == IPv4Len && |seps| == IPv4Len - 1 && AllSeparators(seps)
    ensures Ipv6Spec(Lead(gs) + Dotted(o, seps)) == None
  {
    var d := Dotted(o, seps);
    assert d[0] == DecText(o[0])[0];
    if gs == [] {
      assert Lead(gs) + d == d;
      BareTail(o, seps);
    } else if |gs| <= 7 {
      LeadSplit(gs, d);
      ShortTail(gs, o, seps);
    } else {
      var x := if |gs| == 8 then d else Join(gs[8..]) + [Colon] + d;
      LeadSplit(gs, d);
      if |gs| > 8 {
        JoinSplit(gs, 8);
        assert Join(gs) + [Colon] + d == Join(gs[..8]) + [Colon] + x;
      } else {
        assert gs[..8] == gs;
      }
      NinthGroup(gs[..8], x);
    }
  }

  /** `::` and a dotted quad. */
  lemma LeadingTail(o: seq<Byte>, seps: seq<seq<Byte>>)
    requires |o| == IPv4Len && |seps| == IPv4Len - 1 && AllSeparators(seps)
    ensures Ipv6Spec([Colon, Colon] + Dotted(o, seps)) == Some(Zeros(IPv6Len - IPv4Len) + o)
  {
    var d := Dotted(o, seps);
    TailAt(o, seps, [], 0);
    NoPrefix(o);
    Ipv6SpecLeading(d, Some(Scan(o, 0, [])));
    FinishFront(o);
  }

  /** Groups, `::` and a dotted quad: where the loop stops. */
  lemma InnerTailScan(hs: seq<GroupText>, o: seq<Byte>, seps: seq<seq<Byte>>)
    requires 0 < |hs| <= 7
    requires |o| == IPv4Len && |seps| == IPv4Len - 1 && AllSeparators(seps)
    ensures Groups(Join(hs) + [Colon, Colon] + Dotted(o, seps), [], -1)
         == if |hs| == 7 then None else Some(Scan(Bytes(hs) + o, 2 * |hs|, []))
  {
    var d := Dotted(o, seps);
    JoinEllipsis(hs, d, [], -1);
    NoPrefix(Bytes(hs));
    TailAt(o, seps, Bytes(hs), 2 * |hs|);
  }

  /**
   * Groups, `::` and a dotted quad: the `::` must stand for at least one
   * zero group, and the quad needs room for its four bytes.
   */
  lemma InnerTail(hs: seq<GroupText>, o: seq<Byte>, seps: seq<seq<Byte>>)
    requires 0 < |hs| <= 7
    requires |o| == IPv4Len && |seps| == IPv4Len - 1 && AllSeparators(seps)
    ensures Ipv6Spec(Join(hs) + [Colon, Colon] + Dotted(o, seps))
         == if |hs| <= 5 then Some(Bytes(hs) + Zeros(IPv6Len - IPv4Len - 2 * |hs|) + o) else None
  {
    var s := Join(hs) + [Colon, Colon] + Dotted(o, seps);
    InnerTailScan(hs, o, seps);
    assert s[0] == Join(hs)[0];
    if |hs| == 7 {
      Ipv6SpecPlain(s, None);
    } else {
      Ipv6SpecPlain(s, Some(Scan(Bytes(hs) + o, 2 * |hs|, [])));
      if |hs| <= 5 {
        FinishSplit(Bytes(hs), o);
      }
    }
  }
}
