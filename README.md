# fasttld IP literal parser and string scanners, in Dafny

This project models the lexical core of fasttld, a Go library that splits
URLs into scheme, user info, host, port and path before it matches public
suffixes. Two parts of that core are modelled:

- **The IP literal parser** (`net.go`). `dtoi` and `xtoi` are clamped decimal
  and hexadecimal accumulators. `parseIPv4` reads a dotted quad into the
  IPv4-mapped 16-byte form of section 2.5.5.2 of RFC 4291. `parseIPv6` reads
  the text forms of section 2.2 of RFC 4291: groups, a single `::` ellipsis,
  and an embedded dotted-quad tail. It writes them through a cursor into a
  16-byte buffer, then expands the ellipsis in place. `parseIP` and
  `looksLikeIPAddress` pick between the two readers. Four label separators
  are accepted: U+002E, U+3002, U+FF0E and U+FF61 (section 3.1 of RFC 3490).
- **The ASCII bit set and the scanners** (`strings.go`).
  - `asciiSet` is an `[8]uint32` bitmap, built by `makeASCIISet` and queried
    by `contains`.
  - Index primitives: `indexAnyASCII`, `indexRune`, `indexAny`,
    `lastIndexAny` and `indexLastByteBefore`.
  - The in-place `reverse`, `sepSize` and `makeNewReplacerParams`.
  - The delimiter constants and their sets.

Strings are byte sequences (`seq<Byte>`, where `Byte` is `0..255`). Where the
Go code decodes runes (`indexAny`, `lastIndexAny`, `makeNewReplacerParams`),
the input is the sequence of its Unicode scalar values (`seq<Rune>`), and
byte offsets come from their UTF-8 lengths (`Utf8.Offset`). A Go `nil` IP is
`None`.

Each loop of the Go code is a Dafny `method` with its loop and invariants.
Each method is proved equal to a specification function:

| method | specification function |
|---|---|
| `Dtoi`, `Xtoi` | `NumberPrefix` |
| `ParseIPv4` | `Ipv4Spec` |
| `ParseIPv6` | `Ipv6Spec`, built from `Groups` / `AfterGroup` / `TailScan` / `Finish` / `Expand` |
| `ParseIP` | `IpSpec` |
| `MakeAsciiSet` | `AsciiSetOf` |
| `IndexAnyAscii` | `FirstInSet` |
| `IndexAny`, `LastIndexAny` | `FirstMatch`, `LastMatch` |
| `Reverse` | `Reversed` |
| `MakeNewReplacerParams` | `ReplacerParams` |

The properties are then proved about those functions. Most are round trips
from text forms back to addresses. An IPv6 group is any non-empty run of hex
digits, of either case and with any number of leading zeros, whose value
fits in 16 bits, so `::1`, `2001:db8::68`, `2001:0DB8::0068` and `::00001`
are all covered:

- Dotted quads: `Ipv4RoundTrip`, `Ipv4Sound`.
- Full and compressed IPv6 forms: `FullForm`, `CompressedForm`.
- IPv4 tails: `SixGroupsAndTail`, `LeadingTail`, `InnerTail`.
- The mapped form `::ffff:a.b.c.d`: `MappedForm`.

Each rejection rule of the parsers also has a lemma.

The modules follow the source files:

| module | file | contents |
|---|---|---|
| `Types` | `types.dfy` | bytes, `Option`, zero runs |
| `Utf8` | `utf8.dfy` | UTF-8 lengths and encodings, used by `string(r)` and `range` over a string |
| `Strings` | `strings.dfy` | `strings.go` |
| `Net` | `net.dfy` | `net.go` |
| `NetIpv4Proofs` | `net_ipv4_proofs.dfy` | dotted-quad round trip, soundness and leading zeros |
| `NetIpv6Proofs` | `net_ipv6_proofs.dfy` | IPv6 group forms, the ellipsis and the rejection rules |
| `NetIpv6TailProofs` | `net_ipv6_tail_proofs.dfy` | the embedded IPv4 tail and the mapped form |

Section 2.2 of RFC 4291 allows one to four hex digits per group. The code
(`xtoi`, net.go:198-221, then the check at net.go:117-120) accepts any run of
hex digits whose value is at most 0xFFFF, so `00001` is read as the group 1.
The model follows the code: `Xtoi`, `GroupText`, `LongGroupText` and
`GroupTooBig` state it.

## Model

| member | source | states |
|---|---|---|
| Net.DigitRun | net.go:40 | the length of the leading run of digits: every byte before it is a digit, and the byte after it is not (or the input ends) |
| Net.DigitValue | net.go:201-209 | the value of a hex digit of either case is below 16, and below 10 for a decimal digit |
| Net.ValueMonotone | net.go:40-44 | a longer prefix of a digit run never has a smaller value, so once the accumulator reaches `big` the whole run does too |
| Net.DigitStep | net.go:40-44 | one more digit extends the run, and its value is the old value times the base plus the digit |
| Net.RunEnd | net.go:40-49 | when the accumulator stops at a non-digit below `big`, it has read the whole digit run, and the result is the value of that run (none when the run is empty) |
| Net.Dtoi | net.go:36-50 | succeeds exactly when the input starts with a digit run whose value is below `big` (0xFFFFFF); it then returns that value and the run length, and the next byte is not a digit; with no leading digit it returns (0, 0, false); when the value reaches `big` it returns (`big`, i, false), with the value of `s[..i+1]` at least `big` and the value of `s[..i]` below it |
| Net.Xtoi | net.go:196-221 | the same as `Dtoi` over hex digits of either case, except that reaching `big` returns (0, i, false) |
| Net.NumberPrefix | net.go:36-50 | the successful outcome of `dtoi`/`xtoi`: a non-empty run of digits of the base, followed by a non-digit or the end of input, whose value is below `big` |
| Net.SepLen | net.go:72-79 | the length of the label separator the input starts with (1 for `.`, 3 for the three ideographic/fullwidth/halfwidth full stops), or 0 |
| Net.GroupBytes | net.go:143-145 | a 16-bit group is written high byte first: high * 256 + low is the group |
| Net.IPv4 | net.go:52-62 | `IPv4(a, b, c, d)` builds ten zero bytes, 0xff 0xff, then a, b, c, d, which is `v4InV6Prefix` followed by the octets |
| Net.MappedV4 | net.go:54-62 | the value `IPv4` returns is sixteen bytes, `v4InV6Prefix` followed by the four octets |
| Net.OctetsFrom | net.go:67-93 | from octet `i` on, an accepted reading has exactly `4 - i` octets (the rules are stated by `NextOctet`, `OctetsEnd` and `Ipv4Sound`) |
| Net.Ipv4Spec | net.go:64-95 | an accepted dotted quad gives 16 bytes that start with `v4InV6Prefix` |
| Net.OctetsFromStep | net.go:70-89 | one round of the loop of `parseIPv4`: a separator, then an octet, then the remaining octets |
| Net.Octet | net.go:80-87 | an accepted octet is the whole leading decimal run, has that run's value (at most 0xFF), and has no leading zero unless it is the single digit `0` |
| Net.NextOctet | net.go:68-89 | one round of the octet loop of `parseIPv4`, proved equal to one step of `OctetsFrom`: the separator check, `dtoi`, the `> 0xFF` check and the leading-zero check |
| Net.OctetsEnd | net.go:91-94 | after four octets, the input is accepted only when nothing is left |
| Net.ReadOctets | net.go:66-90 | the octet loop of `parseIPv4` fills the 4-byte array `p` with exactly the octets `OctetsFrom` reads, or fails where it fails |
| Net.ParseIPv4 | net.go:64-95 | `parseIPv4` returns `Ipv4Spec(s)` |
| Net.Groups | net.go:113-171 | the group loop of `parseIPv6` either rejects or stops with at most 16 bytes written and an ellipsis position within them |
| Net.AfterGroup | net.go:147-169 | the rest of a round after a group either rejects or stops with at most 16 bytes written and the ellipsis within them (its rules are stated by `GroupEnd`, `GroupColon`, `GroupEllipsis`, `GroupSecondEllipsis` and `NoColonAndMore`) |
| Net.TailScan | net.go:122-139 | an accepted IPv4 tail adds exactly 4 bytes, still fits in the 16, and keeps the ellipsis (where it is accepted is stated by `TailAt`) |
| Net.Expand | net.go:178-188 | ellipsis expansion gives 16 bytes |
| Net.Ipv6Spec | net.go:97-194 | an accepted IPv6 text gives exactly 16 bytes |
| Net.Finish | net.go:172-193 | the checks after the group loop, with the expansion, give 16 bytes when they accept (the rejection rules are stated by `TooFewGroups`, `NinthGroup` and `EightGroupsAndEllipsis`) |
| Net.ExpandIs | net.go:178-188 | a buffer that keeps the bytes before the ellipsis, zero-fills the gap and ends with the bytes written after the ellipsis, in order, is the expansion |
| Net.ExpandEllipsis | net.go:178-188 | the two in-place loops turn the buffer into `Expand` of what was written before the cursor |
| Net.ShiftBack | net.go:182-185 | the shift loop moves `ip[ellipsis..i]` to the end of the buffer and leaves every byte before the moved block unchanged (the bytes before the ellipsis and the gap it opens) |
| Net.ZeroGap | net.go:186-188 | the zero-fill loop zeroes the gap and changes nothing else |
| Net.PutBytes | net.go:136 | the four octets are copied to `ip[i..i+4]`, and the bytes before `i` and after `i+4` are kept |
| Net.Ipv4Tail | net.go:122-139 | the IPv4 tail branch of `parseIPv6` agrees with `TailScan`, and writes the octets at the cursor |
| Net.WriteGroup | net.go:141-170 | writing a group and reading the separator after it agrees with one round of `Groups` |
| Net.ReadSeparator | net.go:147-169 | the separator part of a round agrees with `AfterGroup` |
| Net.NextGroup | net.go:115-171 | one round of the group loop agrees with `Groups`: it rejects, continues from the state `Groups` continues from, or stops where `Groups` stops |
| Net.ParseIPv6 | net.go:97-194 | `parseIPv6` returns `Ipv6Spec(s)` |
| Net.FirstDelimiterFrom | net.go:229-236 | the first label separator or colon at or after `k`, or -1 when there is none |
| Net.FirstDelimiterIs | net.go:229-236 | a delimiter with none before it is the first delimiter |
| Net.IpSpec | net.go:223-238 | what `parseIP` returns has 16 bytes |
| Net.ParseIP | net.go:223-238 | `parseIP` returns `IpSpec(s)`: `parseIPv4` at a first label separator, `parseIPv6` at a first colon, and nil when there is neither |
| Net.HexDigitNoDelimiter | net.go:229-236 | no hex digit starts a label separator or a colon |
| Net.FirstOctet | net.go:68-89 | an accepted dotted quad starts with an octet that is followed by a label separator |
| Net.Ipv4FirstDelimiter | net.go:229-232 | every text `parseIPv4` accepts has a label separator as its first delimiter, so `parseIP` sends it to `parseIPv4` |
| Net.Ipv6FirstDelimiter | net.go:233-235 | every text `parseIPv6` accepts has a colon as its first delimiter, so `parseIP` sends it to `parseIPv6` |
| Net.IpSpecEither | net.go:223-238 | `parseIP(s)` is `parseIPv4(s)` when that succeeds and `parseIPv6(s)` otherwise |
| Net.LooksLikeIpAddress | net.go:240-243 | true exactly when `parseIPv4` or `parseIPv6` accepts the text, which is exactly when `parseIP` does |
| NetIpv4Proofs.DecText | net.go:80-87 | the canonical decimal text of an octet: one to three digits, with no leading zero unless it is the only digit |
| NetIpv4Proofs.DecTextValue | net.go:38-50 | `dtoi` reads the canonical decimal text of an octet as that octet |
| NetIpv4Proofs.SepLenOfSeparator | net.go:72-79 | each of the four separator encodings is recognised with its own length |
| NetIpv4Proofs.SeparatorOfSepLen | net.go:72-79 | whatever is recognised as a separator is one of the four encodings |
| NetIpv4Proofs.OctetOfDecText | net.go:80-88 | the canonical text of an octet is read back as that octet |
| NetIpv4Proofs.FourDigitsTooBig | net.go:81-87 | four digits that do not start with `0` are at least 1000, so an accepted octet has at most three digits |
| NetIpv4Proofs.DecTextOfOctet | net.go:80-88 | every octet the checks accept (value at most 0xFF, no leading zero unless alone) is read from exactly the canonical text of its value |
| NetIpv4Proofs.SepTextStep | net.go:70-89 | reading a separator and an octet's text peels one octet off the reading |
| NetIpv4Proofs.OctetsFromSepText | net.go:67-93 | separator-led octet texts are read back as their octets |
| NetIpv4Proofs.Ipv4RoundTrip | net.go:64-95 | any four octets written in canonical decimal, joined by any of the four separators, are accepted and give the mapped address of those octets |
| NetIpv4Proofs.SepTextOf | net.go:67-93 | every input that the octet reader accepts is separator-led canonical octet texts |
| NetIpv4Proofs.Ipv4Sound | net.go:64-95 | every accepted input is exactly such a dotted quad, so `parseIPv4` accepts nothing else |
| NetIpv4Proofs.LeadingZeroRejected | net.go:84-87 | a text whose first octet is `0` followed by another digit is rejected |
| NetIpv4Proofs.ParseIpDotted | net.go:228-232 | `parseIP` of a dotted quad is the mapped address of its octets |
| NetIpv6Proofs.GroupPrefix | net.go:116-120 | `xtoi` on a group text followed by a non-digit (or the end) gives the group's value and the text's length, whatever its case and number of digits |
| NetIpv6Proofs.GroupEnd | net.go:142-151 | a group text at the end of the input writes the two bytes of its value and stops |
| NetIpv6Proofs.GroupColon | net.go:153-157 | a group text and a single colon write the two bytes of its value and continue |
| NetIpv6Proofs.GroupEllipsis | net.go:159-169 | a group text and a first `::` note the ellipsis at the cursor, and stop when nothing follows |
| NetIpv6Proofs.GroupSecondEllipsis | net.go:160-163 | a group text then a second `::` is rejected |
| NetIpv6Proofs.JoinEnd | net.go:113-171 | colon-separated group texts at the end of input write their values in order |
| NetIpv6Proofs.JoinColon | net.go:113-171 | colon-separated group texts and a colon continue with their values written |
| NetIpv6Proofs.JoinEllipsis | net.go:113-171 | colon-separated group texts and a first `::` note the ellipsis after their bytes |
| NetIpv6Proofs.JoinSecondEllipsis | net.go:160-163 | group texts then a second `::` are rejected |
| NetIpv6Proofs.JoinAppend | net.go:113-171 | the text of two lists of groups joined by a colon is the text of the joined list |
| NetIpv6Proofs.FinishFront | net.go:178-188 | with the ellipsis at the start, the bytes written move to the end of the address behind zeros |
| NetIpv6Proofs.FinishBack | net.go:178-188 | with the ellipsis at the end, zeros follow the bytes written |
| NetIpv6Proofs.FinishSplit | net.go:178-188 | with the ellipsis inside, the head stays, the tail moves to the end, and zeros fill the gap |
| NetIpv6Proofs.Ipv6SpecLeading | net.go:103-111 | a leading `::` starts the loop with the ellipsis at 0 |
| NetIpv6Proofs.Ipv6SpecPlain | net.go:103-114 | without a leading colon the loop starts with no ellipsis |
| NetIpv6Proofs.FullForm | net.go:97-194 | eight group texts in full form, in any spelling, give the sixteen bytes of their values |
| NetIpv6Proofs.TooFewGroups | net.go:177-181 | one to seven group texts and no `::` are rejected |
| NetIpv6Proofs.NinthGroup | net.go:172-175 | eight group texts, a colon and any non-empty text that does not start with a colon are rejected: the loop stops with that text left over |
| NetIpv6Proofs.TooManyGroups | net.go:113-175 | more than eight group texts are rejected |
| NetIpv6Proofs.LeadingEllipsis | net.go:103-111 | `::` and up to seven group texts give zeros then the groups' values |
| NetIpv6Proofs.TrailingEllipsis | net.go:159-169 | up to seven group texts and a trailing `::` give the groups' values then zeros |
| NetIpv6Proofs.InnerEllipsis | net.go:178-188 | head group texts, `::` and tail group texts (seven at most together) give the head, zeros, then the tail |
| NetIpv6Proofs.EllipsisOnly | net.go:103-111 | `::` alone is the all-zero address |
| NetIpv6Proofs.CompressedForm | net.go:97-194 | every compressed text with at most seven group texts, in any spelling, gives head bytes, a zero gap of the missing groups, then tail bytes |
| NetIpv6Proofs.EightGroupsAndEllipsis | net.go:189-192 | a `::` together with eight group texts is rejected, since the ellipsis must stand for at least one group |
| NetIpv6Proofs.TwoEllipses | net.go:160-163 | a compressed text followed by a second `::` is rejected, whatever the group spellings |
| NetIpv6Proofs.JoinThen | net.go:142-169 | group texts followed by a non-digit, non-separator text leave exactly that text to the separator check |
| NetIpv6Proofs.NoColonAndMore | net.go:153-156 | after a group, anything but the end, or a colon followed by more input, is rejected |
| NetIpv6Proofs.BadFollower | net.go:153-156 | group texts followed by a lone colon, or by a byte that is not a colon, digit or separator, are rejected |
| NetIpv6Proofs.GroupTooBigAt | net.go:116-120 | a run of hex digits whose value exceeds 0xFFFF, where the loop expects a group, is rejected, however many digits it has |
| NetIpv6Proofs.LeadTooBig | net.go:113-157 | after any number of group texts and their colons, a group above 0xFFFF is rejected |
| NetIpv6Proofs.GroupTooBig | net.go:103-120 | in a text without `::`, a group above 0xFFFF is rejected at any position |
| NetIpv6Proofs.GroupTooBigAfterEllipsis | net.go:103-169 | after a `::` and any group texts around it, a group above 0xFFFF is rejected |
| NetIpv6Proofs.EllipsisThenOne | net.go:103-194 | `::` followed by any spelling of the group 1 gives fifteen zero bytes and then 1 |
| NetIpv6Proofs.OneValue | net.go:198-221 | the digit `1` is read as 1 |
| NetIpv6Proofs.LoopbackText | net.go:97-194 | `::1` gives fifteen zero bytes and then 1 |
| NetIpv6Proofs.PaddedOneValue | net.go:198-221 | `00001` is five hex digits whose value is 1 |
| NetIpv6Proofs.LongGroupText | net.go:113-120 | `::00001` is accepted and gives the same address as `::1`: the digit count is not limited |
| NetIpv6Proofs.Value2001 | net.go:198-221 | `2001` is read as 0x2001 |
| NetIpv6Proofs.ValueDb8 | net.go:198-221 | `db8` is read as 0xdb8 |
| NetIpv6Proofs.Value68 | net.go:198-221 | `68` is read as 0x68 |
| NetIpv6Proofs.DocumentationText | net.go:224 | `2001:db8::68` gives 20 01 0d b8, ten zero bytes, then 00 68 |
| NetIpv6TailProofs.HexValueBound | net.go:198-221 | `n` hex digits denote less than 16 to the power `n` |
| NetIpv6TailProofs.DottedHexPrefix | net.go:116-123 | read as a hex group, a dotted quad gives its first octet's digits (a value within 0xFFFF) and stops at a separator, so the tail branch is taken |
| NetIpv6TailProofs.TailAt | net.go:122-139 | a dotted quad where a group is expected is accepted only after `::` or with exactly 12 bytes written, and only with room for 4 more bytes; its octets are then written and the loop stops |
| NetIpv6TailProofs.MappedForm | net.go:122-139 | `::ffff:a.b.c.d`, with `ffff` in any spelling of 0xFFFF, gives the same address as `parseIPv4("a.b.c.d")` |
| NetIpv6TailProofs.SixGroupsAndTail | net.go:122-139 | six group texts and a dotted quad give the twelve group bytes then the four octets |
| NetIpv6TailProofs.ShortTail | net.go:123-127 | without `::`, one to five or seven group texts and then a dotted quad are rejected |
| NetIpv6TailProofs.BareTail | net.go:123-127 | a dotted quad with no groups and no `::` is rejected by `parseIPv6` |
| NetIpv6TailProofs.MisplacedTail | net.go:113-175 | without `::`, a dotted quad after any number of group texts other than six, none included, is rejected |
| NetIpv6TailProofs.LeadingTail | net.go:103-139 | `::` and a dotted quad give twelve zeros then the octets |
| NetIpv6TailProofs.InnerTail | net.go:122-191 | group texts, `::` and a dotted quad are accepted exactly when at most five groups come first, and give the groups, zeros, then the octets |
| Utf8.RuneLen | strings.go:110-112 | the UTF-8 length of a rune is 1 to 4, and 1 exactly for ASCII |
| Utf8.Encode | strings.go:157 | `string(r)` has the rune's UTF-8 length, is the byte itself for ASCII, and is otherwise a lead byte followed by continuation bytes |
| Utf8.Offset | strings.go:96 | the byte offset of rune `k` is the length of the encoding of the runes before it |
| Utf8.OffsetMonotone | strings.go:96 | byte offsets grow at least as fast as rune indices |
| Utf8.DecodeEncode | net.go:73-74 | decoding the UTF-8 encoding of a rune, as `utf8.DecodeRuneInString` does, gives back the rune |
| Strings.LabelSeparatorBytes | strings.go:12-13 | the four label separators are encoded as 2E, E3 80 82, EF BC 8E and EF BD A1, and the constant is their concatenation |
| Strings.LabelSeparatorMembers | net.go:122-123 | searching `labelSeparators` for a rune finds it exactly when the rune is one of the four separators; no other rune's encoding occurs in those bytes, even across two separators |
| Strings.SeparatorOccurrence | strings.go:13 | any occurrence of a rune's encoding in the ten bytes of `labelSeparators` is one of the four separators |
| Strings.Add | strings.go:52 | setting bit `c % 32` of word `c / 32` adds exactly `c` to the set |
| Strings.BitOr | strings.go:52-61 | or-ing in bit `j` makes bit `k` set exactly when it was set or `j == k` |
| Strings.Contains | strings.go:57-62 | `contains` tests bit `c % 32` of word `c / 32`; when the upper four words are clear, no byte from 128 up is a member |
| Strings.AsciiSetOfMembers | strings.go:49-62 | `contains(makeASCIISet(chars), b)` holds exactly when `b` occurs in `chars` |
| Strings.NonAsciiNeverMember | strings.go:36-44 | a byte of 128 or more is never in a set built from ASCII characters |
| Strings.MakeAsciiSet | strings.go:49-55 | the loop builds the set whose members are exactly the bytes of `chars` |
| Strings.DelimiterSets | strings.go:20-31 | the end-of-host-with-port set holds `/ \ ? #`; the end-of-host set adds exactly `:`; the invalid-user-info set adds exactly `[` and `]` |
| Strings.FirstInSet | strings.go:64-76 | the index of the first byte in the set, or -1 exactly when no byte is |
| Strings.IndexAnyAscii | strings.go:69-76 | `indexAnyASCII` returns the first index of a byte in the set, or -1 when none is |
| Strings.IndexByteFinds | strings.go:83-84 | `strings.IndexByte` returns -1 exactly when the byte is absent, and otherwise its first index |
| Strings.IndexRune | strings.go:78-88 | `indexRune` returns -1 or an offset within `s`, using `IndexByte` for an ASCII rune and a search for its encoding otherwise (what it finds is stated by `IndexRuneFindsEncoding`) |
| Strings.LastIndexByteFinds | strings.go:166-168 | `strings.LastIndexByte` returns -1 exactly when the byte is absent, and otherwise its last index |
| Strings.IndexOfFromFinds | strings.go:85-86 | `strings.Index` returns the first index where the pattern occurs, or -1 exactly when it does not occur |
| Strings.IndexRuneFindsEncoding | strings.go:81-88 | `indexRune` finds the first occurrence of the rune's UTF-8 encoding, or -1 exactly when there is none |
| Strings.FirstMatch | strings.go:95-102 | the first rune of `s` that occurs in `chars`, or -1 exactly when none does |
| Strings.LastMatch | strings.go:109-118 | the last rune of `s` that occurs in `chars`, or -1 exactly when none does |
| Strings.IndexAny | strings.go:95-102 | `indexAny` returns -1 exactly when no rune of `s` is in `chars`, and otherwise the byte offset of the first one that is |
| Strings.LastIndexAny | strings.go:109-118 | `lastIndexAny`, stepping back a decoded rune at a time, returns -1 exactly when no rune is in `chars`, and otherwise the byte offset of the last one that is |
| Strings.LastMatchDrop | strings.go:110-116 | the last match in a prefix one rune longer is that rune if it matches, and otherwise the last match before it |
| Strings.FirstNotAfterLast | strings.go:95-118 | when `indexAny` finds a match, `lastIndexAny` finds one too, at an offset no smaller |
| Strings.IndexLastByteBefore | strings.go:162-169 | the last index of `b` before the first byte of the set (before the end when there is none), or -1 exactly when `b` does not occur there |
| Strings.LastByteInPrefix | strings.go:166 | the last index of `b` in a prefix is the last occurrence before the bound |
| Strings.ReversedTwice | strings.go:120-125 | reversing twice restores the sequence |
| Strings.Reverse | strings.go:120-125 | the in-place swap loop leaves the reverse of the old contents: element `k` is old element `n-1-k` |
| Strings.SepSize | strings.go:127-138 | 1 for first byte 46 and 3 otherwise |
| Strings.SepSizeOfSeparators | strings.go:127-138 | for each of the four label separators, the size computed from its first byte is its UTF-8 length |
| Strings.ReplacerPairs | strings.go:156-158 | two parameters per rune |
| Strings.ReplacerPairsAt | strings.go:156-158 | pair `k` is the `k`-th rune of `t`, encoded, then `w` |
| Strings.Blanks | strings.go:155 | `make` with a length gives that many empty strings |
| Strings.MakeNewReplacerParams | strings.go:154-160 | the loop returns `ReplacerParams(t, w)`: one empty string per byte of `t`, then a pair for each rune of `t`, in order |
| Strings.ReplacerParamsParity | strings.go:155 | as written, the number of parameters has the parity of the byte length of `t` |
| Strings.FullStopParams | strings.go:155 | as written, a single `.` gives three parameters |
| Strings.MakeReplacerPairs | strings.go:150-160 | as evidently intended: exactly the pairs, an even number of parameters |

## Left out

- `formatAsPunycode` (strings.go:141-148) is not modelled. It calls `idna.ToASCII` and writes to the log, neither of which is part of this model.
- `schemeRegex` (strings.go:34) and `standardLabelSeparatorReplacer` (strings.go:18) are not modelled. They depend on Go's `regexp` engine and `strings.Replacer`. The parameter builder `makeNewReplacerParams` is modelled.
- The `whitespace` constant (strings.go:15) is not modelled. No modelled operation uses it.
- cmd/fasttld/extract.go is not part of this model. It is a command-line front end: flags, printing and JSON output around the extractor.
- The suffix trie, the suffix-list download and the cache are not part of this model.
- Invalid UTF-8 is not modelled. `IndexAny`, `LastIndexAny` and `MakeNewReplacerParams` take the string as its sequence of Unicode scalar values, so Go's decoding of malformed bytes as `utf8.RuneError` is not represented. One difference follows from this: `lastIndexAny` (strings.go:113) calls Go's `strings.IndexRune`, while `indexAny` calls this package's `indexRune`. The two differ only when `chars` holds invalid UTF-8, where Go's `strings.IndexRune` matches `RuneError` against a malformed byte. The model uses one membership test (`InChars`) for both.
- `ParseIP`: Go ranges over the runes of the string. The model scans byte offsets instead. The result is the same for every input, including invalid UTF-8. A match can only start with the bytes 2E, 3A, E3 or EF, none of which is a continuation byte, so Go's decoder visits every such offset.
- Go's fixed-width `int` is not modelled. `dtoi` and `xtoi` stop at `big` (0xFFFFFF) before any overflow, so unbounded integers give the same results. The `byte(n >> 8)` and `byte(n)` conversions of a group of at most 0xFFFF are exact (`n / 256`, `n % 256`).
- `Reverse` is generic over the element type. The source's `[]string` is one instance.
- `asciiSet` is a value of eight 32-bit words (`seq<bv32>` of length 8). `MakeAsciiSet` builds it in a local array and returns the value, as Go returns the array by value.
- The buffers returned by `parseIPv4` and `parseIPv6` are returned as values (`seq<Byte>`). Aliasing of the returned slice is not modelled.
- Several loop bodies of `parseIPv4` and `parseIPv6` are factored into helper methods (`NextOctet`, `ReadOctets`, `NextGroup`, `WriteGroup`, `ReadSeparator`, `Ipv4Tail`, `PutBytes`, `ShiftBack`, `ZeroGap`). Together they perform the same steps, in the same order, as the single Go function.

## Findings

| source | as written | input that shows it | evidently intended | confidence | as-written member | corrected member |
|---|---|---|---|---|---|---|
| strings.go:155 | `make([]string, len(toBeReplaced))` creates one empty string per byte of `toBeReplaced` before the appended pairs, so the parameter count is `len + 2 * runes` | `makeNewReplacerParams(".", ".")` gives `["", ".", "."]`: three parameters, and `strings.NewReplacer` panics on an odd count; for `labelSeparators` (10 bytes) it adds five `("", "")` pairs | `make([]string, 0, len(toBeReplaced))`: exactly one (rune, replacement) pair per rune, as the doc comment at strings.go:150-153 describes | medium, not executed | Strings.FullStopParams | Strings.MakeReplacerPairs |
