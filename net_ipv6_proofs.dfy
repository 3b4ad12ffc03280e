/**
 * What `parseIPv6` accepts, stated through the text forms of RFC 4291
 * section 2.2: eight groups joined by colons; a `::` standing for one or
 * more zero groups; and a dotted-quad IPv4 tail in place of the last two
 * groups. Each form is read back as the address it writes, and the
 * malformed variants are rejected.
 */
module NetIpv6Proofs {
  import opened Types
  import opened Net
  import opened NetIpv4Proofs

  type Group = g: nat | g <= 0xFFFF

  /**
   * A group as it may be written: one or more hexadecimal digits of either
   * case, with any number of leading zeros, whose value fits in 16 bits.
   * `1`, `db8`, `FFFF` and `00001` are all group texts.
   */
  type GroupText = d: seq<Byte> | d != [] && AllInBase(d, 16) && Value(d, 16) <= 0xFFFF witness [Zero]

  /** The 16-bit value a group text denotes. */
  function GroupValue(d: GroupText): Group {
    Value(d, 16)
  }

  /** Groups joined by single colons. */
  function Join(ds: seq<GroupText>): (t: seq<Byte>)
    requires ds != []
    ensures |t| > 0 && IsHexDigit(t[0])
  {
    assert InBase(ds[0][0], 16);
    if |ds| == 1 then ds[0] else ds[0] + [Colon] + Join(ds[1..])
  }

  /** The address bytes of some groups, high byte first. */
  function Bytes(ds: seq<GroupText>): (b: seq<Byte>)
    ensures |b| == 2 * |ds|
  {
    if ds == [] then [] else GroupBytes(GroupValue(ds[0])) + Bytes(ds[1..])
  }

  /** A group text followed by a non-digit (or the end) is read as its value and its length. */
  lemma GroupPrefix(d: GroupText, rest: seq<Byte>)
    requires rest == [] || !IsHexDigit(rest[0])
    ensures NumberPrefix(d + rest, 16) == Some((GroupValue(d), |d|))
  {
    var s := d + rest;
    assert s[..|d|] == d;
    DigitRunIs(s, 16, |d|);
  }

  /** A state of the group loop with room for one more group. */
  predicate Room(w: seq<Byte>, e: int) {
    |w| < IPv6Len && |w| % 2 == 0 && -1 <= e <= |w|
  }

  lemma NoPrefix(b: seq<Byte>)
    ensures [] + b == b
  {
  }

  /** One more group in a state with room leaves it well formed. */
  lemma RoomNext(w: seq<Byte>, b: seq<Byte>, e: int)
    requires Room(w, e) && |b| == 2
    ensures Fits(w + b, e, 0)
  {
    EvenSum(|w|, 2);
  }

  /** The last group of the input. */
  lemma GroupEnd(d: GroupText, w: seq<Byte>, e: int)
    requires Room(w, e)
    ensures Groups(d, w, e) == Some(Scan(w + GroupBytes(GroupValue(d)), e, []))
  {
    GroupPrefix(d, []);
    assert d + [] == d;
    assert d[|d|..] == [];
  }

  /** A group, a colon, and then another group. */
  lemma GroupColon(d: GroupText, rest: seq<Byte>, w: seq<Byte>, e: int)
    requires Room(w, e) && rest != [] && rest[0] != Colon
    ensures var w' := w + GroupBytes(GroupValue(d));
      Fits(w', e, 0) && Groups(d + [Colon] + rest, w, e) == Groups(rest, w', e)
  {
    RoomNext(w, GroupBytes(GroupValue(d)), e);
    var s := d + ([Colon] + rest);
    assert d + [Colon] + rest == s;
    GroupPrefix(d, [Colon] + rest);
    assert s[|d|..] == [Colon] + rest;
    assert SepLen(s[|d|..]) == 0;
    assert s[|d|..][1..] == rest;
  }

  /** A group followed by the first `::`. */
  lemma GroupEllipsis(d: GroupText, rest: seq<Byte>, w: seq<Byte>, e: int)
    requires Room(w, e) && e < 0
    ensures Fits(w + GroupBytes(GroupValue(d)), e, 0)
    ensures var w' := w + GroupBytes(GroupValue(d));
      Groups(d + [Colon, Colon] + rest, w, e)
      == if rest == [] then Some(Scan(w', |w'|, [])) else Groups(rest, w', |w'|)
  {
    RoomNext(w, GroupBytes(GroupValue(d)), e);
    var s := d + ([Colon, Colon] + rest);
    assert d + [Colon, Colon] + rest == s;
    GroupPrefix(d, [Colon, Colon] + rest);
    assert s[|d|..] == [Colon, Colon] + rest;
    assert SepLen(s[|d|..]) == 0;
    assert s[|d|..][1..] == [Colon] + rest;
    assert s[|d|..][1..][1..] == rest;
  }

  /** A second `::` is rejected. */
  lemma GroupSecondEllipsis(d: GroupText, rest: seq<Byte>, w: seq<Byte>, e: int)
    requires Room(w, e) && e >= 0
    ensures Groups(d + [Colon, Colon] + rest, w, e) == None
  {
    var s := d + ([Colon, Colon] + rest);
    assert d + [Colon, Colon] + rest == s;
    GroupPrefix(d, [Colon, Colon] + rest);
    assert s[|d|..] == [Colon, Colon] + rest;
    assert s[|d|..][1..] == [Colon] + rest;
    assert SepLen(s[|d|..]) == 0 && s[|d|..][1..][0] == Colon;
  }

  /** A state of the group loop with room for `k` more groups. */
  predicate Fits(w: seq<Byte>, e: int, k: nat) {
    |w| + 2 * k <= IPv6Len && |w| % 2 == 0 && -1 <= e <= |w|
  }

  /** The state after one more group still fits the rest. */
  lemma FitsNext(gs: seq<GroupText>, w: seq<Byte>, e: int)
    requires gs != [] && Fits(w, e, |gs|)
    ensures Room(w, e) && Fits(w + GroupBytes(GroupValue(gs[0])), e, |gs| - 1)
  {
    EvenSum(|w|, 2);
  }

  lemma BytesCons(gs: seq<GroupText>, w: seq<Byte>)
    requires gs != []
    ensures w + GroupBytes(GroupValue(gs[0])) + Bytes(gs[1..]) == w + Bytes(gs)
  {
  }

  /** Groups joined by colons, up to the end of the input. */
  lemma {:induction false} JoinEnd(gs: seq<GroupText>, w: seq<Byte>, e: int)
    requires gs != [] && Fits(w, e, |gs|)
    ensures Groups(Join(gs), w, e) == Some(Scan(w + Bytes(gs), e, []))
    decreases |gs|
  {
    FitsNext(gs, w, e);
    BytesCons(gs, w);
    if |gs| == 1 {
      assert gs[1..] == [] && Join(gs) == gs[0];
      assert Bytes(gs[1..]) == [];
      assert Bytes(gs) == GroupBytes(GroupValue(gs[0]));
      GroupEnd(gs[0], w, e);
    } else {
      GroupColon(gs[0], Join(gs[1..]), w, e);
      JoinEnd(gs[1..], w + GroupBytes(GroupValue(gs[0])), e);
    }
  }

  /** Groups joined by colons, then a colon and more input that is not a colon. */
  lemma {:induction false} JoinColon(gs: seq<GroupText>, rest: seq<Byte>, w: seq<Byte>, e: int)
    requires gs != [] && Fits(w, e, |gs|) && rest != [] && rest[0] != Colon
    ensures Fits(w + Bytes(gs), e, 0) && Groups(Join(gs) + [Colon] + rest, w, e) == Groups(rest, w + Bytes(gs), e)
    decreases |gs|
  {
    FitsAfter(w, Bytes(gs), e, |gs|);
    FitsNext(gs, w, e);
    BytesCons(gs, w);
    if |gs| == 1 {
      assert gs[1..] == [] && Join(gs) == gs[0];
      assert Bytes(gs[1..]) == [];
      assert Bytes(gs) == GroupBytes(GroupValue(gs[0]));
      GroupColon(gs[0], rest, w, e);
    } else {
      var more := Join(gs[1..]) + [Colon] + rest;
      assert Join(gs) + [Colon] + rest == gs[0] + [Colon] + more;
      GroupColon(gs[0], more, w, e);
      JoinColon(gs[1..], rest, w + GroupBytes(GroupValue(gs[0])), e);
    }
  }

  /** Groups joined by colons, then the first `::`. */
  lemma {:induction false} JoinEllipsis(gs: seq<GroupText>, rest: seq<Byte>, w: seq<Byte>, e: int)
    requires gs != [] && Fits(w, e, |gs|) && e < 0
    ensures Fits(w + Bytes(gs), e, 0)
    ensures var w' := w + Bytes(gs);
      Groups(Join(gs) + [Colon, Colon] + rest, w, e)
      == if rest == [] then Some(Scan(w', |w'|, [])) else Groups(rest, w', |w'|)
    decreases |gs|
  {
    FitsAfter(w, Bytes(gs), e, |gs|);
    FitsNext(gs, w, e);
    BytesCons(gs, w);
    if |gs| == 1 {
      assert gs[1..] == [] && Join(gs) == gs[0];
      assert Bytes(gs[1..]) == [];
      assert Bytes(gs) == GroupBytes(GroupValue(gs[0]));
      GroupEllipsis(gs[0], rest, w, e);
    } else {
      var more := Join(gs[1..]) + [Colon, Colon] + rest;
      assert Join(gs) + [Colon, Colon] + rest == gs[0] + [Colon] + more;
      GroupColon(gs[0], more, w, e);
      JoinEllipsis(gs[1..], rest, w + GroupBytes(GroupValue(gs[0])), e);
    }
  }

  /** Groups joined by colons, then a second `::`: rejected. */
  lemma {:induction false} JoinSecondEllipsis(gs: seq<GroupText>, rest: seq<Byte>, w: seq<Byte>, e: int)
    requires gs != [] && Fits(w, e, |gs|) && e >= 0
    ensures Groups(Join(gs) + [Colon, Colon] + rest, w, e) == None
    decreases |gs|
  {
    FitsNext(gs, w, e);
    if |gs| == 1 {
      assert gs[1..] == [] && Join(gs) == gs[0];
      assert Bytes(gs[1..]) == [];
      assert Bytes(gs) == GroupBytes(GroupValue(gs[0]));
      GroupSecondEllipsis(gs[0], rest, w, e);
    } else {
      var more := Join(gs[1..]) + [Colon, Colon] + rest;
      assert Join(gs) + [Colon, Colon] + rest == gs[0] + [Colon] + more;
      GroupColon(gs[0], more, w, e);
      JoinSecondEllipsis(gs[1..], rest, w + GroupBytes(GroupValue(gs[0])), e);
    }
  }

  /** Optional groups joined by colons: empty when there are none. */
  function Head(gs: seq<GroupText>): seq<Byte> {
    if gs == [] then [] else Join(gs)
  }

  /** The compressed form: groups, `::`, groups. */
  function Compressed(hs: seq<GroupText>, ts: seq<GroupText>): seq<Byte> {
    Head(hs) + [Colon, Colon] + Head(ts)
  }

  /** An ellipsis at the start: all zeros go in front. */
  lemma FinishFront(b: seq<Byte>)
    requires |b| < IPv6Len
    ensures Finish(Some(Scan(b, 0, []))) == Some(Zeros(IPv6Len - |b|) + b)
  {
    assert b[..0] == [] && b[0..] == b;
    assert Expand(b, 0) == Zeros(IPv6Len - |b|) + b;
  }

  /** An ellipsis at the end: all zeros go behind. */
  lemma FinishBack(a: seq<Byte>)
    requires |a| < IPv6Len
    ensures Finish(Some(Scan(a, |a|, []))) == Some(a + Zeros(IPv6Len - |a|))
  {
    assert a[..|a|] == a && a[|a|..] == [];
    assert Expand(a, |a|) == a + Zeros(IPv6Len - |a|);
  }

  /** An ellipsis between: the zeros go between. */
  lemma FinishSplit(a: seq<Byte>, b: seq<Byte>)
    requires |a| + |b| < IPv6Len
    ensures Finish(Some(Scan(a + b, |a|, []))) == Some(a + Zeros(IPv6Len - |a| - |b|) + b)
  {
    assert (a + b)[..|a|] == a && (a + b)[|a|..] == b;
    assert Expand(a + b, |a|) == a + Zeros(IPv6Len - |a| - |b|) + b;
  }

  /** Input that starts with `::` and goes on. */
  lemma Ipv6SpecLeading(t: seq<Byte>, scan: Option<Scan>)
    requires t != [] && Groups(t, [], 0) == scan
    ensures Ipv6Spec([Colon, Colon] + t) == Finish(scan)
  {
    assert ([Colon, Colon] + t)[2..] == t;
  }

  /** Input that does not start with a colon. */
  lemma Ipv6SpecPlain(s: seq<Byte>, scan: Option<Scan>)
    requires s != [] && s[0] != Colon && Groups(s, [], -1) == scan
    ensures Ipv6Spec(s) == Finish(scan)
  {
  }

  /** Eight groups joined by colons: the full form. */
  lemma FullForm(gs: seq<GroupText>)
    requires |gs| == 8
    ensures Ipv6Spec(Join(gs)) == Some(Bytes(gs))
  {
    JoinEnd(gs, [], -1);
    NoPrefix(Bytes(gs));
    Ipv6SpecPlain(Join(gs), Some(Scan(Bytes(gs), -1, [])));
  }

  /** Fewer than eight groups and no `::`: rejected. */
  lemma TooFewGroups(gs: seq<GroupText>)
    requires 0 < |gs| < 8
    ensures Ipv6Spec(Join(gs)) == None
  {
    JoinEnd(gs, [], -1);
    NoPrefix(Bytes(gs));
    Ipv6SpecPlain(Join(gs), Some(Scan(Bytes(gs), -1, [])));
  }

  lemma {:induction false} JoinAppend(a: seq<GroupText>, b: seq<GroupText>)
    requires a != [] && b != []
    ensures Join(a + b) == Join(a) + [Colon] + Join(b)
    decreases |a|
  {
    assert (a + b)[0] == a[0];
    assert Join(a + b) == a[0] + [Colon] + Join((a + b)[1..]);
    if |a| == 1 {
      assert (a + b)[1..] == b;
    } else {
      assert (a + b)[1..] == a[1..] + b;
      JoinAppend(a[1..], b);
      assert Join(a) == a[0] + [Colon] + Join(a[1..]);
    }
  }

  /** Eight groups, a colon and more groups. */
  lemma NinthGroup(a: seq<GroupText>, x: seq<Byte>)
    requires |a| == 8 && x != [] && x[0] != Colon
    ensures Ipv6Spec(Join(a) + [Colon] + x) == None
  {
    var s := Join(a) + [Colon] + x;
    assert s[0] != Colon;
    JoinColon(a, x, [], -1);
    NoPrefix(Bytes(a));
  }

  lemma JoinSplit(gs: seq<GroupText>, k: nat)
    requires 0 < k < |gs|
    ensures Join(gs) == Join(gs[..k]) + [Colon] + Join(gs[k..])
  {
    assert gs == gs[..k] + gs[k..];
    JoinAppend(gs[..k], gs[k..]);
  }

  /** More than eight groups: rejected. */
  lemma TooManyGroups(gs: seq<GroupText>)
    requires |gs| > 8
    ensures Ipv6Spec(Join(gs)) == None
  {
    JoinSplit(gs, 8);
    NinthGroup(gs[..8], Join(gs[8..]));
  }

  lemma LeadingScan(ts: seq<GroupText>)
    requires 0 < |ts| <= 8
    ensures Groups(Join(ts), [], 0) == Some(Scan(Bytes(ts), 0, []))
  {
    JoinEnd(ts, [], 0);
    NoPrefix(Bytes(ts));
  }

  lemma CompressedShape(hs: seq<GroupText>, ts: seq<GroupText>)
    ensures hs == [] ==> Compressed(hs, ts) == [Colon, Colon] + Head(ts)
    ensures hs != [] ==> Compressed(hs, ts) == Join(hs) + [Colon, Colon] + Head(ts)
    ensures ts == [] ==> Compressed(hs, ts) == Head(hs) + [Colon, Colon]
  {
  }

  /** `::` and then groups. */
  lemma LeadingEllipsis(ts: seq<GroupText>)
    requires 0 < |ts| <= 7
    ensures Ipv6Spec(Compressed([], ts)) == Some(Zeros(IPv6Len - 2 * |ts|) + Bytes(ts))
  {
    CompressedShape([], ts);
    LeadingScan(ts);
    Ipv6SpecLeading(Join(ts), Some(Scan(Bytes(ts), 0, [])));
    FinishFront(Bytes(ts));
  }

  lemma TrailingScan(hs: seq<GroupText>)
    requires 0 < |hs| <= 8
    ensures Groups(Join(hs) + [Colon, Colon], [], -1) == Some(Scan(Bytes(hs), 2 * |hs|, []))
  {
    JoinEllipsis(hs, [], [], -1);
    NoPrefix(Bytes(hs));
    assert Join(hs) + [Colon, Colon] + [] == Join(hs) + [Colon, Colon];
  }

  /** Groups and then `::`. */
  lemma TrailingEllipsis(hs: seq<GroupText>)
    requires 0 < |hs| <= 7
    ensures Ipv6Spec(Compressed(hs, [])) == Some(Bytes(hs) + Zeros(IPv6Len - 2 * |hs|))
  {
    var s := Join(hs) + [Colon, Colon];
    CompressedShape(hs, []);
    TrailingScan(hs);
    Ipv6SpecPlain(s, Some(Scan(Bytes(hs), 2 * |hs|, [])));
    FinishBack(Bytes(hs));
  }

  /** The bytes of the groups before `::` leave room for the groups after it. */
  lemma BytesFit(hs: seq<GroupText>, ts: seq<GroupText>)
    requires |hs| + |ts| <= 8
    ensures Fits(Bytes(hs), 2 * |hs|, |ts|)
  {
    Even(|hs|);
  }

  /** Twice a number is even; kept apart for the same reason as EvenSum. */
  lemma Even(n: nat)
    ensures (2 * n) % 2 == 0
  {
  }

  lemma InnerScan(hs: seq<GroupText>, ts: seq<GroupText>)
    requires hs != [] && ts != [] && |hs| + |ts| <= 8
    ensures Groups(Join(hs) + [Colon, Colon] + Join(ts), [], -1)
         == Some(Scan(Bytes(hs) + Bytes(ts), 2 * |hs|, []))
  {
    JoinEllipsis(hs, Join(ts), [], -1);
    NoPrefix(Bytes(hs));
    BytesFit(hs, ts);
    JoinEnd(ts, Bytes(hs), 2 * |hs|);
  }

  /** Groups, `::`, groups. */
  lemma InnerEllipsis(hs: seq<GroupText>, ts: seq<GroupText>)
    requires hs != [] && ts != [] && |hs| + |ts| <= 7
    ensures Ipv6Spec(Compressed(hs, ts)) == Some(Bytes(hs) + Zeros(IPv6Len - 2 * (|hs| + |ts|)) + Bytes(ts))
  {
    var s := Join(hs) + [Colon, Colon] + Join(ts);
    CompressedShape(hs, ts);
    InnerScan(hs, ts);
    Ipv6SpecPlain(s, Some(Scan(Bytes(hs) + Bytes(ts), 2 * |hs|, [])));
    FinishSplit(Bytes(hs), Bytes(ts));
  }

  /** `::` alone is the unspecified address. */
  lemma EllipsisOnly()
    ensures Ipv6Spec(Compressed([], [])) == Some(Zeros(IPv6Len))
  {
    assert Compressed([], []) == [Colon, Colon];
    assert [Colon, Colon][2..] == [];
  }

  /** The expected bytes of the compressed form when one side is empty. */
  lemma CompressedBytes(hs: seq<GroupText>, ts: seq<GroupText>)
    requires |hs| + |ts| <= 8
    ensures hs == [] ==> Bytes(hs) + Zeros(IPv6Len - 2 * (|hs| + |ts|)) + Bytes(ts)
                         == Zeros(IPv6Len - 2 * |ts|) + Bytes(ts)
    ensures ts == [] ==> Bytes(hs) + Zeros(IPv6Len - 2 * (|hs| + |ts|)) + Bytes(ts)
                         == Bytes(hs) + Zeros(IPv6Len - 2 * |hs|)
    ensures hs == [] && ts == [] ==> Bytes(hs) + Zeros(IPv6Len - 2 * (|hs| + |ts|)) + Bytes(ts)
                                     == Zeros(IPv6Len)
  {
    if hs == [] {
      assert Bytes(hs) == [];
    }
    if ts == [] {
      assert Bytes(ts) == [];
    }
  }

  /**
   * The compressed form: `::` stands for as many zero groups as are
   * missing, at least one.
   */
  lemma CompressedForm(hs: seq<GroupText>, ts: seq<GroupText>)
    requires |hs| + |ts| <= 7
    ensures Ipv6Spec(Compressed(hs, ts)) == Some(Bytes(hs) + Zeros(IPv6Len - 2 * (|hs| + |ts|)) + Bytes(ts))
  {
    CompressedBytes(hs, ts);
    if hs == [] && ts == [] {
      EllipsisOnly();
    } else if hs == [] {
      LeadingEllipsis(ts);
    } else if ts == [] {
      TrailingEllipsis(hs);
    } else {
      InnerEllipsis(hs, ts);
    }
  }

  /** With no ellipsis, eight groups already fill the address: `::` then has nothing to stand for. */
  lemma EightGroupsAndEllipsis(hs: seq<GroupText>, ts: seq<GroupText>)
    requires |hs| + |ts| == 8
    ensures Ipv6Spec(Compressed(hs, ts)) == None
  {
    CompressedShape(hs, ts);
    if hs == [] {
      LeadingScan(ts);
      Ipv6SpecLeading(Join(ts), Some(Scan(Bytes(ts), 0, [])));
    } else if ts == [] {
      TrailingScan(hs);
      Ipv6SpecPlain(Join(hs) + [Colon, Colon], Some(Scan(Bytes(hs), 2 * |hs|, [])));
    } else {
      InnerScan(hs, ts);
      Ipv6SpecPlain(Compressed(hs, ts), Some(Scan(Bytes(hs) + Bytes(ts), 2 * |hs|, [])));
    }
  }

  /** `::`, groups and a second `::`: rejected. */
  lemma LeadingTwoEllipses(ts: seq<GroupText>, rest: seq<Byte>)
    requires 0 < |ts| <= 8
    ensures Ipv6Spec([Colon, Colon] + (Join(ts) + [Colon, Colon] + rest)) == None
  {
    JoinSecondEllipsis(ts, rest, [], 0);
    Ipv6SpecLeading(Join(ts) + [Colon, Colon] + rest, None);
  }

  /** Groups, `::`, groups and a second `::`: rejected. */
  lemma InnerTwoEllipses(hs: seq<GroupText>, ts: seq<GroupText>, rest: seq<Byte>)
    requires hs != [] && ts != [] && |hs| + |ts| <= 8
    ensures Ipv6Spec(Join(hs) + [Colon, Colon] + (Join(ts) + [Colon, Colon] + rest)) == None
  {
    var more := Join(ts) + [Colon, Colon] + rest;
    JoinEllipsis(hs, more, [], -1);
    NoPrefix(Bytes(hs));
    BytesFit(hs, ts);
    JoinSecondEllipsis(ts, rest, Bytes(hs), 2 * |hs|);
    Ipv6SpecPlain(Join(hs) + [Colon, Colon] + more, None);
  }

  /** A second `::`, wherever the first one is: rejected. */
  lemma TwoEllipses(hs: seq<GroupText>, ts: seq<GroupText>, rest: seq<Byte>)
    requires ts != [] && |hs| + |ts| <= 8
    ensures Ipv6Spec(Compressed(hs, ts) + [Colon, Colon] + rest) == None
  {
    var more := Join(ts) + [Colon, Colon] + rest;
    CompressedShape(hs, ts);
    if hs == [] {
      assert Compressed(hs, ts) + [Colon, Colon] + rest == [Colon, Colon] + more;
      LeadingTwoEllipses(ts, rest);
    } else {
      assert Compressed(hs, ts) + [Colon, Colon] + rest == Join(hs) + [Colon, Colon] + more;
      InnerTwoEllipses(hs, ts, rest);
    }
  }

  /** One group, then anything that is neither a digit nor a separator. */
  lemma GroupThen(d: GroupText, rest: seq<Byte>, w: seq<Byte>, e: int)
    requires Room(w, e)
    requires rest == [] || (!IsHexDigit(rest[0]) && SepLen(rest) == 0)
    ensures var w' := w + GroupBytes(GroupValue(d));
      Fits(w', e, 0) && Groups(d + rest, w, e) == AfterGroup(rest, w', e)
  {
    RoomNext(w, GroupBytes(GroupValue(d)), e);
    GroupPrefix(d, rest);
    assert (d + rest)[|d|..] == rest;
  }

  /** Bytes for the groups that fit leave the state well formed. */
  lemma FitsAfter(w: seq<Byte>, b: seq<Byte>, e: int, k: nat)
    requires Fits(w, e, k) && |b| == 2 * k
    ensures Fits(w + b, e, 0)
  {
    Even(k);
    EvenSum(|w|, |b|);
  }

  /** Groups joined by colons, then anything that is neither a digit nor a separator. */
  lemma {:induction false} JoinThen(gs: seq<GroupText>, rest: seq<Byte>, w: seq<Byte>, e: int)
    requires gs != [] && Fits(w, e, |gs|)
    requires rest == [] || (!IsHexDigit(rest[0]) && SepLen(rest) == 0)
    ensures Fits(w + Bytes(gs), e, 0) && Groups(Join(gs) + rest, w, e) == AfterGroup(rest, w + Bytes(gs), e)
    decreases |gs|
  {
    FitsAfter(w, Bytes(gs), e, |gs|);
    FitsNext(gs, w, e);
    BytesCons(gs, w);
    if |gs| == 1 {
      assert gs[1..] == [] && Join(gs) == gs[0];
      assert Bytes(gs[1..]) == [];
      assert Bytes(gs) == GroupBytes(GroupValue(gs[0]));
      GroupThen(gs[0], rest, w, e);
    } else {
      var more := Join(gs[1..]) + rest;
      assert Join(gs) + rest == gs[0] + [Colon] + more;
      GroupColon(gs[0], more, w, e);
      JoinThen(gs[1..], rest, w + GroupBytes(GroupValue(gs[0])), e);
    }
  }

  lemma NotGroupStart(rest: seq<Byte>)
    requires rest != []
    requires rest == [Colon] || (rest[0] != Colon && !IsHexDigit(rest[0]) && SepLen(rest) == 0)
    ensures !IsHexDigit(rest[0]) && SepLen(rest) == 0
  {
  }

  /** What may not follow a group. */
  lemma NoColonAndMore(rest: seq<Byte>, w: seq<Byte>, e: int)
    requires |w| <= IPv6Len && |w| % 2 == 0 && -1 <= e <= |w| && rest != []
    requires rest == [Colon] || rest[0] != Colon
    ensures AfterGroup(rest, w, e) == None
  {
  }

  /**
   * After a group there must be the end of the input, or a colon and
   * more: a lone trailing colon, or any other byte that does not start a
   * separator, is rejected.
   */
  lemma BadFollower(gs: seq<GroupText>, rest: seq<Byte>)
    requires 0 < |gs| <= 8 && rest != []
    requires rest == [Colon] || (rest[0] != Colon && !IsHexDigit(rest[0]) && SepLen(rest) == 0)
    ensures Ipv6Spec(Join(gs) + rest) == None
  {
    var s := Join(gs) + rest;
    Even(|gs|);
    NotGroupStart(rest);
    NoPrefix(Bytes(gs));
    JoinThen(gs, rest, [], -1);
    NoColonAndMore(rest, Bytes(gs), -1);
    assert s[0] == Join(gs)[0];
    Ipv6SpecPlain(s, None);
  }

  /** A run of hex digits whose value exceeds 0xFFFF, where a group is expected, is rejected. */
  lemma GroupTooBigAt(d: seq<Byte>, rest: seq<Byte>, w: seq<Byte>, e: int)
    requires Room(w, e) && d != [] && AllInBase(d, 16) && Value(d, 16) > 0xFFFF
    requires rest == [] || !IsHexDigit(rest[0])
    ensures Groups(d + rest, w, e) == None
  {
    var s := d + rest;
    assert s[..|d|] == d;
    DigitRunIs(s, 16, |d|);
  }

  /** Groups, each followed by a colon: empty when there are none. */
  function Lead(gs: seq<GroupText>): seq<Byte> {
    if gs == [] then [] else Join(gs) + [Colon]
  }

  /** Groups and their colons, then a group above 0xFFFF: the loop rejects. */
  lemma LeadTooBig(gs: seq<GroupText>, d: seq<Byte>, rest: seq<Byte>, w: seq<Byte>, e: int)
    requires Fits(w, e, |gs|) && |w| + 2 * |gs| < IPv6Len
    requires d != [] && AllInBase(d, 16) && Value(d, 16) > 0xFFFF
    requires rest == [] || !IsHexDigit(rest[0])
    ensures Groups(Lead(gs) + d + rest, w, e) == None
  {
    if gs == [] {
      assert Lead(gs) + d + rest == d + rest;
      GroupTooBigAt(d, rest, w, e);
    } else {
      JoinTooBig(gs, d, rest, w, e);
      LeadSplit(gs, d + rest);
      assert Lead(gs) + d + rest == Lead(gs) + (d + rest);
    }
  }

  lemma JoinTooBig(gs: seq<GroupText>, d: seq<Byte>, rest: seq<Byte>, w: seq<Byte>, e: int)
    requires gs != [] && Fits(w, e, |gs|) && |w| + 2 * |gs| < IPv6Len
    requires d != [] && AllInBase(d, 16) && Value(d, 16) > 0xFFFF
    requires rest == [] || !IsHexDigit(rest[0])
    ensures Groups(Join(gs) + [Colon] + (d + rest), w, e) == None
  {
    assert InBase(d[0], 16);
    JoinColon(gs, d + rest, w, e);
    GroupTooBigAt(d, rest, w + Bytes(gs), e);
  }

  lemma LeadSplit(gs: seq<GroupText>, t: seq<Byte>)
    requires gs != []
    ensures Lead(gs) + t == Join(gs) + [Colon] + t
  {
  }

  /**
   * A group above 0xFFFF is rejected wherever it stands in a text without
   * `::`, however many digits it is written with.
   */
  lemma GroupTooBig(gs: seq<GroupText>, d: seq<Byte>, rest: seq<Byte>)
    requires |gs| <= 7 && d != [] && AllInBase(d, 16) && Value(d, 16) > 0xFFFF
    requires rest == [] || !IsHexDigit(rest[0])
    ensures Ipv6Spec(Lead(gs) + d + rest) == None
  {
    var s := Lead(gs) + d + rest;
    assert InBase(d[0], 16);
    assert s[0] != Colon by {
      if gs != [] {
        assert s[0] == Join(gs)[0];
      } else {
        assert s[0] == d[0];
      }
    }
    LeadTooBig(gs, d, rest, [], -1);
    Ipv6SpecPlain(s, None);
  }

  /**
   * A group above 0xFFFF is rejected wherever it stands after `::`, however
   * many digits it is written with.
   */
  lemma GroupTooBigAfterEllipsis(hs: seq<GroupText>, ts: seq<GroupText>, d: seq<Byte>, rest: seq<Byte>)
    requires |hs| + |ts| <= 7 && d != [] && AllInBase(d, 16) && Value(d, 16) > 0xFFFF
    requires rest == [] || !IsHexDigit(rest[0])
    ensures Ipv6Spec(Head(hs) + [Colon, Colon] + Lead(ts) + d + rest) == None
  {
    var t := Lead(ts) + d + rest;
    var s := Head(hs) + [Colon, Colon] + Lead(ts) + d + rest;
    assert s == Head(hs) + [Colon, Colon] + t;
    assert t != [];
    if hs == [] {
      assert s == [Colon, Colon] + t;
      LeadTooBig(ts, d, rest, [], 0);
      Ipv6SpecLeading(t, None);
    } else {
      assert s == Join(hs) + [Colon, Colon] + t;
      JoinEllipsis(hs, t, [], -1);
      NoPrefix(Bytes(hs));
      BytesFit(hs, ts);
      LeadTooBig(ts, d, rest, Bytes(hs), 2 * |hs|);
      assert s[0] == Join(hs)[0];
      Ipv6SpecPlain(s, None);
    }
  }

  /** One more hex digit: its value shifts the others by a place. */
  lemma ValueAppend(d: seq<Byte>, c: Byte)
    requires AllInBase(d, 16) && IsHexDigit(c)
    ensures AllInBase(d + [c], 16) && Value(d + [c], 16) == Value(d, 16) * 16 + DigitValue(c)
  {
    assert (d + [c])[..|d|] == d;
  }

  /** `::` and one group of value 1: the loopback address. */
  lemma EllipsisThenOne(g: GroupText)
    requires GroupValue(g) == 1
    ensures Ipv6Spec([Colon, Colon] + g) == Some(Zeros(15) + [1])
  {
    CompressedForm([], [g]);
    assert Compressed([], [g]) == [Colon, Colon] + g;
    assert [g][1..] == [];
    assert Bytes([g]) == [0, 1] && Bytes([]) == [];
    NoPrefix(Zeros(14));
    assert Zeros(14) + [0, 1] == Zeros(15) + [1];
  }

  /** `1`: one hex digit. */
  const OneText: seq<Byte> := ['1' as Byte]

  lemma OneValue()
    ensures AllInBase(OneText, 16) && Value(OneText, 16) == 1
  {
    ValueAppend([], OneText[0]);
    assert [] + [OneText[0]] == OneText;
  }

  /** `::1`, the loopback address of section 2.5.3 of RFC 4291. */
  lemma LoopbackText()
    ensures Ipv6Spec([Colon, Colon] + OneText) == Some(Zeros(15) + [1])
  {
    OneValue();
    EllipsisThenOne(OneText);
  }

  /** `00001`: five hex digits. */
  const PaddedOne: seq<Byte> := ['0' as Byte, '0' as Byte, '0' as Byte, '0' as Byte, '1' as Byte]

  lemma PaddedOneValue()
    ensures AllInBase(PaddedOne, 16) && Value(PaddedOne, 16) == 1
  {
    var d := PaddedOne;
    ValueAppend([], d[0]);
    ValueAppend(d[..1], d[1]);
    ValueAppend(d[..2], d[2]);
    ValueAppend(d[..3], d[3]);
    ValueAppend(d[..4], d[4]);
    assert [] + [d[0]] == d[..1] && d[..1] + [d[1]] == d[..2] && d[..2] + [d[2]] == d[..3];
    assert d[..3] + [d[3]] == d[..4] && d[..4] + [d[4]] == d;
  }

  /** A group written with more than four digits, `::00001`, still denotes 1. */
  lemma LongGroupText()
    ensures Ipv6Spec([Colon, Colon] + PaddedOne) == Some(Zeros(15) + [1])
  {
    PaddedOneValue();
    EllipsisThenOne(PaddedOne);
  }

  const Text2001: seq<Byte> := ['2' as Byte, '0' as Byte, '0' as Byte, '1' as Byte]
  const TextDb8: seq<Byte> := ['d' as Byte, 'b' as Byte, '8' as Byte]
  const Text68: seq<Byte> := ['6' as Byte, '8' as Byte]

  lemma Value2001()
    ensures AllInBase(Text2001, 16) && Value(Text2001, 16) == 0x2001
  {
    var d := Text2001;
    ValueAppend([], d[0]);
    ValueAppend(d[..1], d[1]);
    ValueAppend(d[..2], d[2]);
    ValueAppend(d[..3], d[3]);
    assert [] + [d[0]] == d[..1] && d[..1] + [d[1]] == d[..2];
    assert d[..2] + [d[2]] == d[..3] && d[..3] + [d[3]] == d;
  }

  lemma ValueDb8()
    ensures AllInBase(TextDb8, 16) && Value(TextDb8, 16) == 0xdb8
  {
    var d := TextDb8;
    ValueAppend([], d[0]);
    ValueAppend(d[..1], d[1]);
    ValueAppend(d[..2], d[2]);
    assert [] + [d[0]] == d[..1] && d[..1] + [d[1]] == d[..2] && d[..2] + [d[2]] == d;
  }

  lemma Value68()
    ensures AllInBase(Text68, 16) && Value(Text68, 16) == 0x68
  {
    var d := Text68;
    ValueAppend([], d[0]);
    ValueAppend(d[..1], d[1]);
    assert [] + [d[0]] == d[..1] && d[..1] + [d[1]] == d;
  }

  /** `2001:db8::68`, the example address of the IP parser's documentation comment. */
  lemma DocumentationText()
    ensures Ipv6Spec(Text2001 + [Colon] + TextDb8 + [Colon, Colon] + Text68)
         == Some([0x20, 0x01, 0x0d, 0xb8] + Zeros(10) + [0x00, 0x68])
  {
    Value2001();
    ValueDb8();
    Value68();
    var a: GroupText := Text2001;
    var b: GroupText := TextDb8;
    var c: GroupText := Text68;
    CompressedForm([a, b], [c]);
    assert Join([a, b]) == a + [Colon] + Join([b]);
    assert Compressed([a, b], [c]) == Text2001 + [Colon] + TextDb8 + [Colon, Colon] + Text68;
    assert [a, b][1..] == [b] && [b][1..] == [] && [c][1..] == [];
    assert GroupBytes(GroupValue(a)) == [0x20, 0x01];
    assert GroupBytes(GroupValue(b)) == [0x0d, 0xb8];
    assert GroupBytes(GroupValue(c)) == [0x00, 0x68];
    assert Bytes([c]) == [0x00, 0x68];
    assert Bytes([a, b]) == [0x20, 0x01, 0x0d, 0xb8];
  }
}
