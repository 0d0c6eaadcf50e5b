/** Input validation for everything that reaches a command line: IP
    literals are parsed and re-rendered in canonical form, and arguments
    are filtered to a small set of characters. The IP grammar and the
    canonical rendering are those of Rust's `std::net` (`IpAddr::from_str`
    and `Display`), written out here. */
module Validation {
  import opened Text
  import opened Errors

  type Byte = x: int | 0 <= x < 0x100
  type Segment = x: int | 0 <= x < 0x1_0000

  /** A parsed address: four octets or eight 16-bit segments. */
  datatype IpAddr = V4(octets: seq<Byte>) | V6(segments: seq<Segment>)

  predicate WellFormed(a: IpAddr) {
    match a
    case V4(o) => |o| == 4
    case V6(g) => |g| == 8
  }

  // ---- Hexadecimal numerals ---------------------------------------------

  predicate IsHexDigit(c: char) {
    IsDigit(c) || ('a' <= c <= 'f') || ('A' <= c <= 'F')
  }

  predicate AllHexDigits(s: string) {
    forall i :: 0 <= i < |s| ==> IsHexDigit(s[i])
  }

  function HexDigitValue(c: char): (d: nat)
    requires IsHexDigit(c)
    ensures d < 16
  {
    if IsDigit(c) then DigitValue(c)
    else if 'a' <= c <= 'f' then c as int - 'a' as int + 10
    else c as int - 'A' as int + 10
  }

  function HexValue(ds: string): nat
    requires AllHexDigits(ds)
  {
    if |ds| == 0 then 0 else HexValue(ds[..|ds| - 1]) * 16 + HexDigitValue(ds[|ds| - 1])
  }

  function Pow16(k: nat): (p: nat)
    ensures p >= 1
  {
    if k == 0 then 1 else 16 * Pow16(k - 1)
  }

  lemma {:induction false} HexValueBelow(ds: string)
    requires AllHexDigits(ds)
    ensures HexValue(ds) < Pow16(|ds|)
  {
    if |ds| > 0 {
      HexValueBelow(ds[..|ds| - 1]);
    }
  }

  /** Length of the run of hexadecimal digits that starts `s`. */
  function HexRun(s: string): (n: nat)
    ensures n <= |s| && AllHexDigits(s[..n])
    ensures n < |s| ==> !IsHexDigit(s[n])
  {
    if |s| == 0 || !IsHexDigit(s[0]) then 0 else 1 + HexRun(s[1..])
  }

  function HexDigitChar(d: nat): (c: char)
    requires d < 16
    ensures IsHexDigit(c) && HexDigitValue(c) == d
    ensures IsDigit(c) || ('a' <= c <= 'f')
  {
    ['0', '1', '2', '3', '4', '5', '6', '7', '8', '9', 'a', 'b', 'c', 'd', 'e', 'f'][d]
  }

  /** Rust's `{:x}`: lower-case hexadecimal without leading zeros. */
  function NatToHex(n: nat): (s: string)
    ensures |s| > 0 && AllHexDigits(s)
    ensures forall i :: 0 <= i < |s| ==> IsDigit(s[i]) || ('a' <= s[i] <= 'f')
  {
    if n < 16 then [HexDigitChar(n)] else NatToHex(n / 16) + [HexDigitChar(n % 16)]
  }

  // ---- The parser ---------------------------------------------------------
  // Positions index into the text being parsed; every reader either fails
  // or returns what it read and the position just after it.

  /** Where the next item starts: the first item directly, later items only
      after the separator `c`. */
  function AfterSeparator(s: string, pos: nat, i: nat, c: char): (r: Option<nat>)
    requires pos <= |s|
    ensures r.Some? ==> pos <= r.value <= |s| && s[pos..r.value] == (if i == 0 then [] else [c])
  {
    if i == 0 then Some(pos)
    else if pos < |s| && s[pos] == c then Some(pos + 1)
    else None
  }

  /** One decimal octet: one to three digits, at most 255, and no leading
      zero unless the octet is "0". */
  function ReadOctet(s: string, pos: nat): (r: Option<(Byte, nat)>)
    requires pos <= |s|
    ensures r.Some? ==> pos < r.value.1 <= |s|
  {
    var n := DigitRun(s[pos..]);
    if n == 0 || n > 3 then None
    else
      var v := DecimalValue(s[pos..][..n]);
      if v > 255 || (s[pos] == '0' && n > 1) then None
      else Some((v, pos + n))
  }

  /** The digits an octet is read from are the canonical numeral of the
      octet, and reading stops only at a non-digit. */
  lemma ReadOctetSpan(s: string, pos: nat)
    requires pos <= |s| && ReadOctet(s, pos).Some?
    ensures s[pos..ReadOctet(s, pos).value.1] == NatToDecimal(ReadOctet(s, pos).value.0)
    ensures ReadOctet(s, pos).value.1 < |s| ==> !IsDigit(s[ReadOctet(s, pos).value.1])
  {
    var n := DigitRun(s[pos..]);
    assert s[pos..pos + n] == s[pos..][..n];
    NumeralOfDecimal(s[pos..][..n]);
  }

  /** An octet after a '.'. */
  function ReadDotOctet(s: string, pos: nat): (r: Option<(Byte, nat)>)
    requires pos <= |s|
    ensures r.Some? ==> pos + 1 < r.value.1 <= |s|
  {
    if pos < |s| && s[pos] == '.' then ReadOctet(s, pos + 1) else None
  }

  lemma ReadDotOctetSpan(s: string, pos: nat)
    requires pos <= |s| && ReadDotOctet(s, pos).Some?
    ensures s[pos..ReadDotOctet(s, pos).value.1] == "." + NatToDecimal(ReadDotOctet(s, pos).value.0)
    ensures ReadDotOctet(s, pos).value.1 < |s| ==> !IsDigit(s[ReadDotOctet(s, pos).value.1])
  {
    ReadOctetSpan(s, pos + 1);
    SliceSplit(s, pos, pos + 1, ReadDotOctet(s, pos).value.1);
  }

  /** `Ipv4Addr`'s reader: four octets separated by '.'. */
  function ReadIpv4(s: string, pos: nat): (r: Option<(seq<Byte>, nat)>)
    requires pos <= |s|
    ensures r.Some? ==> |r.value.0| == 4 && pos < r.value.1 <= |s|
  {
    var a := ReadOctet(s, pos);
    if a.None? then None else
    var b := ReadDotOctet(s, a.value.1);
    if b.None? then None else
    var c := ReadDotOctet(s, b.value.1);
    if c.None? then None else
    var d := ReadDotOctet(s, c.value.1);
    if d.None? then None else
    Some(([a.value.0, b.value.0, c.value.0, d.value.0], d.value.1))
  }

  /** What the IPv4 reader consumed is the canonical text of the address it read. */
  lemma ReadIpv4Span(s: string, pos: nat)
    requires pos <= |s| && ReadIpv4(s, pos).Some?
    ensures s[pos..ReadIpv4(s, pos).value.1] == FormatIpv4(ReadIpv4(s, pos).value.0)
  {
    var a := ReadOctet(s, pos).value;
    var b := ReadDotOctet(s, a.1).value;
    var c := ReadDotOctet(s, b.1).value;
    var d := ReadDotOctet(s, c.1).value;
    var o := ReadIpv4(s, pos).value.0;
    assert o == [a.0, b.0, c.0, d.0] && ReadIpv4(s, pos).value.1 == d.1;
    ReadOctetSpan(s, pos);
    ReadDotOctetSpan(s, a.1);
    ReadDotOctetSpan(s, b.1);
    ReadDotOctetSpan(s, c.1);
    JoinFour(s, pos, a.1, b.1, c.1, d.1);
  }

  /** Four adjacent slices make up the slice that spans them. */
  lemma JoinFour(s: string, p0: nat, p1: nat, p2: nat, p3: nat, p4: nat)
    requires p0 <= p1 <= p2 <= p3 <= p4 <= |s|
    ensures s[p0..p4] == s[p0..p1] + s[p1..p2] + s[p2..p3] + s[p3..p4]
  {
    SliceSplit(s, p0, p1, p4);
    SliceSplit(s, p1, p2, p4);
    SliceSplit(s, p2, p3, p4);
  }

  /** A digit run stops exactly where the digits of `d` stop. */
  lemma DigitRunOfNumeral(d: string, rest: string)
    requires AllDigits(d) && (rest == [] || !IsDigit(rest[0]))
    ensures DigitRun(d + rest) == |d|
  {
    if |d| > 0 {
      assert (d + rest)[1..] == d[1..] + rest;
      DigitRunOfNumeral(d[1..], rest);
    } else {
      assert d + rest == rest;
    }
  }

  lemma OctetNumeralLength(v: Byte)
    ensures |NatToDecimal(v)| <= 3
  {
    if v >= 10 {
      assert NatToDecimal(v) == NatToDecimal(v / 10) + [DigitChar(v % 10)];
      if v / 10 >= 10 {
        assert NatToDecimal(v / 10) == NatToDecimal(v / 100) + [DigitChar(v / 10 % 10)];
      }
    }
  }

  /** The canonical numeral of an octet, followed by a non-digit or the
      end, is read back as that octet. */
  lemma ReadOctetOfNumeral(s: string, pos: nat, e: nat, v: Byte)
    requires pos <= e <= |s| && s[pos..e] == NatToDecimal(v)
    requires e == |s| || !IsDigit(s[e])
    ensures ReadOctet(s, pos) == Some((v, e))
  {
    var d := NatToDecimal(v);
    assert s[pos..] == d + s[e..];
    DigitRunOfNumeral(d, s[e..]);
    OctetNumeralLength(v);
    assert s[pos..][..|d|] == d;
    DecimalOfNumeral(v);
  }

  /** `"." + ` the canonical numeral of an octet, followed by a non-digit or
      the end, is read back as that octet. */
  lemma ReadDotOctetOfNumeral(s: string, pos: nat, e: nat, v: Byte)
    requires pos <= e <= |s| && s[pos..e] == DotNumeral(v)
    requires e == |s| || !IsDigit(s[e])
    ensures ReadDotOctet(s, pos) == Some((v, e))
  {
    assert s[pos + 1..e] == NatToDecimal(v);
    ReadOctetOfNumeral(s, pos + 1, e, v);
  }

  /** A slice that spells `a + b` spells `a` and then `b`. */
  lemma Piece(s: string, pos: nat, a: string, b: string)
    requires pos + |a| + |b| <= |s| && s[pos..pos + |a| + |b|] == a + b
    ensures s[pos..pos + |a|] == a && s[pos + |a|..pos + |a| + |b|] == b
  {
    assert s[pos..pos + |a|] == (a + b)[..|a|];
    assert s[pos + |a|..pos + |a| + |b|] == (a + b)[|a|..];
  }

  /** The canonical text of four octets, followed by a non-digit or the end,
      is read back as those octets. */
  lemma ReadIpv4OfFormat(s: string, pos: nat, e: nat, o: seq<Byte>)
    requires |o| == 4 && e == pos + |FormatIpv4(o)|
    requires e <= |s| && s[pos..e] == FormatIpv4(o)
    requires e == |s| || !IsDigit(s[e])
    ensures ReadIpv4(s, pos) == Some((o, e))
  {
    var e0, e1, e2 := FormatPieces(s, pos, e, o);
    ReadIpv4OfPieces(s, pos, o, e0, e1, e2, e);
  }

  /** Where the four numerals of canonical IPv4 text begin and end. */
  lemma FormatPieces(s: string, pos: nat, e: nat, o: seq<Byte>) returns (e0: nat, e1: nat, e2: nat)
    requires |o| == 4 && pos <= e <= |s| && s[pos..e] == FormatIpv4(o)
    ensures pos <= e0 <= e1 <= e2 <= e
    ensures s[pos..e0] == NatToDecimal(o[0]) && s[e0..e1] == DotNumeral(o[1])
    ensures s[e1..e2] == DotNumeral(o[2]) && s[e2..e] == DotNumeral(o[3])
  {
    var a, b, c, d := NatToDecimal(o[0]), DotNumeral(o[1]), DotNumeral(o[2]), DotNumeral(o[3]);
    assert FormatIpv4(o) == a + b + c + d;
    e0, e1, e2 := FourPieces(s, pos, e, a, b, c, d);
  }

  lemma ReadIpv4OfPieces(s: string, pos: nat, o: seq<Byte>, e0: nat, e1: nat, e2: nat, e3: nat)
    requires |o| == 4 && pos <= e0 <= e1 <= e2 <= e3 <= |s|
    requires s[pos..e0] == NatToDecimal(o[0]) && s[e0..e1] == DotNumeral(o[1])
    requires s[e1..e2] == DotNumeral(o[2]) && s[e2..e3] == DotNumeral(o[3])
    requires e3 == |s| || !IsDigit(s[e3])
    ensures ReadIpv4(s, pos) == Some((o, e3))
  {
    assert s[e0] == '.' && s[e1] == '.' && s[e2] == '.';
    ReadOctetOfNumeral(s, pos, e0, o[0]);
    ReadDotOctetOfNumeral(s, e0, e1, o[1]);
    ReadDotOctetOfNumeral(s, e1, e2, o[2]);
    ReadDotOctetOfNumeral(s, e2, e3, o[3]);
    ReadIpv4Steps(s, pos, o, e0, e1, e2, e3);
  }

  lemma FourPieces(s: string, pos: nat, e: nat, a: string, b: string, c: string, d: string)
      returns (e0: nat, e1: nat, e2: nat)
    requires pos <= e <= |s| && s[pos..e] == a + b + c + d
    ensures e0 == pos + |a| && e1 == e0 + |b| && e2 == e1 + |c| && e == e2 + |d|
    ensures s[pos..e0] == a && s[e0..e1] == b && s[e1..e2] == c && s[e2..e] == d
  {
    e0, e1, e2 := pos + |a|, pos + |a| + |b|, pos + |a| + |b| + |c|;
    Piece(s, pos, a + b + c, d);
    Piece(s, pos, a + b, c);
    Piece(s, pos, a, b);
  }

  lemma ReadIpv4Steps(s: string, pos: nat, o: seq<Byte>, e0: nat, e1: nat, e2: nat, e3: nat)
    requires |o| == 4 && pos <= |s| && e0 <= |s| && e1 <= |s| && e2 <= |s|
    requires ReadOctet(s, pos) == Some((o[0], e0))
    requires ReadDotOctet(s, e0) == Some((o[1], e1))
    requires ReadDotOctet(s, e1) == Some((o[2], e2))
    requires ReadDotOctet(s, e2) == Some((o[3], e3))
    ensures ReadIpv4(s, pos) == Some((o, e3))
  {
    assert [o[0], o[1], o[2], o[3]] == o;
  }

  /** A text parses as a given IPv4 address exactly when it is that
      address's canonical text. */
  lemma ParseIpv4Exact(t: string, o: seq<Byte>)
    requires |o| == 4
    ensures ParseIpAddr(t) == Some(V4(o)) <==> t == FormatIpv4(o)
  {
    if t == FormatIpv4(o) {
      assert t[0..|t|] == t;
      ReadIpv4OfFormat(t, 0, |t|, o);
    }
    if ParseIpAddr(t) == Some(V4(o)) {
      ReadIpv4Span(t, 0);
      assert t[0..|t|] == t;
    }
  }

  /** One hexadecimal segment: one to four hex digits of either case. */
  function ReadSegment(s: string, pos: nat): (r: Option<(Segment, nat)>)
    requires pos <= |s|
    ensures r.Some? ==> pos < r.value.1 <= |s|
  {
    var n := HexRun(s[pos..]);
    if n == 0 || n > 4 then None
    else
      var ds := s[pos..pos + n];
      assert ds == s[pos..][..n];
      HexValueBelow(ds);
      assert Pow16(n) <= Pow16(4) == 0x1_0000 by { Pow16Monotone(n, 4); }
      Some((HexValue(ds), pos + n))
  }

  lemma {:induction false} Pow16Monotone(a: nat, b: nat)
    requires a <= b
    ensures Pow16(a) <= Pow16(b)
    decreases b
  {
    if a < b {
      Pow16Monotone(a, b - 1);
    }
  }

  /** Rust's `read_groups`: colon-separated segments into slots `i` up to
      `limit`, where a slot with another slot after it may instead take an
      embedded IPv4 address (filling both and ending the run). Returns the
      segments read from slot `i` on, the position after them, and whether
      an IPv4 tail was read. */
  function ReadGroups(s: string, pos: nat, i: nat, limit: nat): (r: (seq<Segment>, nat, bool))
    requires pos <= |s| && i <= limit
    ensures |r.0| <= limit - i && pos <= r.1 <= |s|
    ensures r.2 ==> |r.0| >= 2
    decreases limit - i
  {
    if i == limit then ([], pos, false)
    else
      var v4: Option<(seq<Byte>, nat)> :=
        if i + 1 < limit then
          var q := AfterSeparator(s, pos, i, ':');
          if q.None? then None else ReadIpv4(s, q.value)
        else None;
      if v4.Some? then
        var o := v4.value.0;
        ([Segment16(o[0], o[1]), Segment16(o[2], o[3])], v4.value.1, true)
      else
        var q := AfterSeparator(s, pos, i, ':');
        var segment := if q.None? then None else ReadSegment(s, q.value);
        if segment.None? then ([], pos, false)
        else
          var rest := ReadGroups(s, segment.value.1, i + 1, limit);
          ([segment.value.0] + rest.0, rest.1, rest.2)
  }

  /** The 16-bit segment whose high byte is `hi` and low byte is `lo`. */
  function Segment16(hi: Byte, lo: Byte): Segment {
    hi * 0x100 + lo
  }

  /** The eight segments of an address written with "::": the head, as many
      zero segments as are missing, and the tail. */
  function Expand(head: seq<Segment>, tail: seq<Segment>): (g: seq<Segment>)
    requires |head| + |tail| <= 8
    ensures |g| == 8
  {
    head + Zeros(8 - |head| - |tail|) + tail
  }

  function Zeros(n: nat): (z: seq<Segment>)
    ensures |z| == n && forall k :: 0 <= k < n ==> z[k] == 0
  {
    if n == 0 then [] else [0] + Zeros(n - 1)
  }

  /** `Ipv6Addr`'s reader: eight segments, or a head and a tail around one
      "::" that stands for at least one zero segment. An IPv4 tail may end
      the address but may not come before the "::". */
  function ReadIpv6(s: string, pos: nat): (r: Option<(seq<Segment>, nat)>)
    requires pos <= |s|
    ensures r.Some? ==> |r.value.0| == 8 && pos <= r.value.1 <= |s|
  {
    var head := ReadGroups(s, pos, 0, 8);
    if |head.0| == 8 then Some((head.0, head.1))
    else if head.2 then None
    else ReadIpv6Tail(s, head.0, head.1)
  }

  /** After a head of fewer than eight segments: "::" and then the tail. */
  function ReadIpv6Tail(s: string, head: seq<Segment>, p1: nat): (r: Option<(seq<Segment>, nat)>)
    requires |head| < 8 && p1 <= |s|
    ensures r.Some? ==> |r.value.0| == 8 && p1 <= r.value.1 <= |s|
  {
    if p1 + 2 <= |s| && s[p1] == ':' && s[p1 + 1] == ':' then
      var tail := ReadGroups(s, p1 + 2, 0, 7 - |head|);
      Some((Expand(head, tail.0), tail.1))
    else None
  }

  /** `IpAddr::from_str`: an IPv4 address if one can be read at the start,
      otherwise an IPv6 address; either way the whole text must be used. */
  function ParseIpAddr(t: string): (r: Option<IpAddr>)
    ensures r.Some? ==> WellFormed(r.value)
  {
    match ReadIpv4(t, 0)
    case Some((o, p)) => if p == |t| then Some(V4(o)) else None
    case None =>
      match ReadIpv6(t, 0)
      case Some((g, p)) => if p == |t| then Some(V6(g)) else None
      case None => None
  }

  // ---- Canonical rendering --------------------------------------------------

  /** `Ipv4Addr`'s `Display`: "a.b.c.d" in decimal. */
  function FormatIpv4(o: seq<Byte>): string
    requires |o| == 4
  {
    NatToDecimal(o[0]) + DotNumeral(o[1]) + DotNumeral(o[2]) + DotNumeral(o[3])
  }

  function DotNumeral(v: Byte): (s: string)
    ensures |s| >= 2 && s[0] == '.'
  {
    "." + NatToDecimal(v)
  }

  /** Segments in lower-case hex separated by ':'. */
  function HexGroups(g: seq<Segment>): (t: string)
    ensures |g| > 0 ==> |t| > 0
  {
    if |g| == 0 then [] else NatToHex(g[0]) + ColonGroups(g[1..])
  }

  /** Segments in lower-case hex, each preceded by ':'. */
  function ColonGroups(g: seq<Segment>): (t: string)
    ensures |g| > 0 ==> |t| > 0 && t[0] == ':'
  {
    if |g| == 0 then [] else ":" + NatToHex(g[0]) + ColonGroups(g[1..])
  }

  lemma {:induction false} ColonGroupsText(g: seq<Segment>)
    ensures HexText(ColonGroups(g))
  {
    if |g| > 0 {
      ColonGroupsText(g[1..]);
      HexTextAppend(":", NatToHex(g[0]));
      HexTextAppend(":" + NatToHex(g[0]), ColonGroups(g[1..]));
    }
  }

  /** Hex group text holds only hex digits and ':', so no '.'. */
  lemma HexGroupsText(g: seq<Segment>)
    ensures HexText(HexGroups(g)) && '.' !in HexGroups(g)
  {
    if |g| > 0 {
      ColonGroupsText(g[1..]);
      HexTextAppend(NatToHex(g[0]), ColonGroups(g[1..]));
    }
  }

  /** Text made of lower-case hex digits and ':' only. */
  predicate HexText(t: string) {
    forall k :: 0 <= k < |t| ==> IsDigit(t[k]) || ('a' <= t[k] <= 'f') || t[k] == ':'
  }

  lemma HexTextAppend(a: string, b: string)
    requires HexText(a) && HexText(b)
    ensures HexText(a + b) && '.' !in a + b
  {
    assert forall k :: 0 <= k < |a + b| ==> (a + b)[k] == if k < |a| then a[k] else b[k - |a|];
  }

  /** The first longest run of zero segments, as `Ipv6Addr`'s `Display`
      finds it: scanning left to right, a run replaces the best one only
      when it is strictly longer. */
  function ZeroRunScan(g: seq<Segment>, i: nat, curStart: nat, curLen: nat, bestStart: nat, bestLen: nat): (r: (nat, nat))
    requires i <= |g| && curStart + curLen == i && bestStart + bestLen <= i
    requires forall k :: curStart <= k < i ==> g[k] == 0
    requires forall k :: bestStart <= k < bestStart + bestLen ==> g[k] == 0
    ensures r.0 + r.1 <= |g| && forall k :: r.0 <= k < r.0 + r.1 ==> g[k] == 0
    decreases |g| - i
  {
    if i == |g| then (bestStart, bestLen)
    else if g[i] == 0 then
      var s := if curLen == 0 then i else curStart;
      var l := curLen + 1;
      if l > bestLen then ZeroRunScan(g, i + 1, s, l, s, l)
      else ZeroRunScan(g, i + 1, s, l, bestStart, bestLen)
    else ZeroRunScan(g, i + 1, i + 1, 0, bestStart, bestLen)
  }

  function LongestZeroRun(g: seq<Segment>): (r: (nat, nat))
    ensures r.0 + r.1 <= |g| && forall k :: r.0 <= k < r.0 + r.1 ==> g[k] == 0
  {
    ZeroRunScan(g, 0, 0, 0, 0, 0)
  }

  /** `Ipv6Addr`'s `Display` (section 4 of RFC 5952): an IPv4-mapped address
      as "::ffff:a.b.c.d"; otherwise lower-case hex segments, with the first
      longest run of two or more zero segments written as "::". */
  function FormatIpv6(g: seq<Segment>): string
    requires |g| == 8
  {
    if g[..6] == [0, 0, 0, 0, 0, 0xffff] then
      "::ffff:" + FormatIpv4([g[6] / 0x100, g[6] % 0x100, g[7] / 0x100, g[7] % 0x100])
    else
      var (start, len) := LongestZeroRun(g);
      if len > 1 then HexGroups(g[..start]) + "::" + HexGroups(g[start + len..])
      else HexGroups(g)
  }

  /** `IpAddr`'s `Display`. */
  function FormatIp(a: IpAddr): string
    requires WellFormed(a)
  {
    match a
    case V4(o) => FormatIpv4(o)
    case V6(g) => FormatIpv6(g)
  }

  // ---- Reading back the canonical text ---------------------------------------

  lemma {:induction false} HexOfNumeral(n: nat)
    ensures HexValue(NatToHex(n)) == n
  {
    if n >= 16 {
      HexOfNumeral(n / 16);
      var s := NatToHex(n);
      assert s[..|s| - 1] == NatToHex(n / 16);
    }
  }

  lemma {:induction false} HexNumeralLength(n: nat, k: nat)
    requires 1 <= k && n < Pow16(k)
    ensures |NatToHex(n)| <= k
  {
    if n >= 16 {
      HexNumeralLength(n / 16, k - 1);
    }
  }

  lemma {:induction false} HexRunOfNumeral(d: string, rest: string)
    requires AllHexDigits(d) && (rest == [] || !IsHexDigit(rest[0]))
    ensures HexRun(d + rest) == |d|
    decreases |d|
  {
    var s := d + rest;
    if |d| > 0 {
      assert s[0] == d[0] && IsHexDigit(s[0]);
      assert s[1..] == d[1..] + rest;
      HexRunOfNumeral(d[1..], rest);
      assert HexRun(s) == 1 + HexRun(s[1..]);
    } else {
      assert s == rest;
    }
  }

  /** The canonical hex numeral of a segment, followed by a non-hex character
      or the end, is read back as that segment. */
  lemma ReadSegmentOfNumeral(s: string, pos: nat, e: nat, x: Segment)
    requires pos <= e <= |s| && s[pos..e] == NatToHex(x)
    requires e == |s| || !IsHexDigit(s[e])
    ensures ReadSegment(s, pos) == Some((x, e))
  {
    var d := NatToHex(x);
    HexRunAt(s, pos, e, d);
    HexNumeralLength(x, 4);
    HexOfNumeral(x);
    ReadSegmentBy(s, pos, e, d, x);
  }

  /** The run of hex digits at `pos` ends where the numeral `d` ends. */
  lemma HexRunAt(s: string, pos: nat, e: nat, d: string)
    requires pos <= e <= |s| && s[pos..e] == d && AllHexDigits(d)
    requires e == |s| || !IsHexDigit(s[e])
    ensures HexRun(s[pos..]) == e - pos
  {
    var rest := s[e..];
    assert s[pos..] == d + rest by { SliceSplit(s, pos, e, |s|); }
    HexRunOfNumeral(d, rest);
  }

  /** `ReadSegment` in terms of the run it reads and the value of that run. */
  lemma ReadSegmentBy(s: string, pos: nat, e: nat, d: string, x: Segment)
    requires pos < e <= pos + 4 && e <= |s| && HexRun(s[pos..]) == e - pos
    requires s[pos..e] == d && AllHexDigits(d) && HexValue(d) == x
    ensures ReadSegment(s, pos) == Some((x, e))
  {
  }

  /** Text without a '.' holds no IPv4 address. */
  lemma NoDotNoIpv4(s: string, pos: nat)
    requires pos <= |s| && '.' !in s
    ensures ReadIpv4(s, pos).None?
  {
    var a := ReadOctet(s, pos);
    if a.Some? {
      assert ReadDotOctet(s, a.value.1).None?;
    }
  }

  /** The text that fills slots `i`, `i + 1`, ... with the segments `xs`:
      each segment in canonical hex, every slot but the first after a ':'. */
  function SlotText(xs: seq<Segment>, i: nat): string {
    if i == 0 then HexGroups(xs) else ColonGroups(xs)
  }

  /** Where a run of groups ends for good: at the end of the text or at a
      "::", so that the next slot can read neither a separator and segment
      nor a first segment. */
  predicate GroupsEnd(s: string, e: nat) {
    e == |s| || (e + 1 < |s| && s[e] == ':' && s[e + 1] == ':')
  }

  /** Reading groups over canonical text returns exactly the segments written. */
  lemma {:induction false} ReadGroupsOfText(s: string, pos: nat, e: nat, i: nat, limit: nat, xs: seq<Segment>)
    requires '.' !in s
    requires i + |xs| <= limit && pos <= e <= |s|
    requires s[pos..e] == SlotText(xs, i) && GroupsEnd(s, e)
    ensures ReadGroups(s, pos, i, limit) == (xs, e, false)
    decreases |xs|
  {
    if |xs| == 0 {
      assert |s[pos..e]| == 0;
      ReadGroupsStop(s, pos, i, limit);
    } else {
      var q, m := SlotPieces(s, pos, e, i, xs);
      ReadGroupsOfText(s, m, e, i + 1, limit, xs[1..]);
      ReadGroupsCons(s, pos, i, limit, q, m, e, xs);
    }
  }

  lemma ReadGroupsCons(s: string, pos: nat, i: nat, limit: nat, q: nat, m: nat, e: nat, xs: seq<Segment>)
    requires '.' !in s && |xs| > 0 && i < limit && pos <= q <= m <= e <= |s|
    requires AfterSeparator(s, pos, i, ':') == Some(q)
    requires s[q..m] == NatToHex(xs[0]) && (m == |s| || !IsHexDigit(s[m]))
    requires ReadGroups(s, m, i + 1, limit) == (xs[1..], e, false)
    ensures ReadGroups(s, pos, i, limit) == (xs, e, false)
  {
    ReadSegmentOfNumeral(s, q, m, xs[0]);
    NoDotNoIpv4(s, q);
    ReadGroupsStep(s, pos, i, limit, q, xs[0], m);
    assert [xs[0]] + xs[1..] == xs;
  }

  /** The first slot of canonical group text: its separator, its segment's
      numeral ending before a non-hex character, and the slots after it. */
  lemma SlotPieces(s: string, pos: nat, e: nat, i: nat, xs: seq<Segment>) returns (q: nat, m: nat)
    requires |xs| > 0 && pos <= e <= |s|
    requires s[pos..e] == SlotText(xs, i) && GroupsEnd(s, e)
    ensures pos <= q <= m <= e && AfterSeparator(s, pos, i, ':') == Some(q)
    ensures s[q..m] == NatToHex(xs[0]) && (m == |s| || !IsHexDigit(s[m]))
    ensures s[m..e] == SlotText(xs[1..], i + 1)
  {
    var sep: string := if i == 0 then [] else ":";
    var h := NatToHex(xs[0]);
    var rest := ColonGroups(xs[1..]);
    SlotTextHead(xs, i);
    q, m := ThreePieces(s, pos, e, sep, h, rest);
    if i == 0 {
      assert q == pos;
    } else {
      assert s[pos] == ':' && q == pos + 1;
    }
    if |xs| == 1 {
      assert m == e;
    } else {
      assert s[m] == ':';
    }
  }

  /** The first slot's text is its separator, then its segment's numeral,
      then the later slots. */
  lemma SlotTextHead(xs: seq<Segment>, i: nat)
    requires |xs| > 0
    ensures SlotText(xs, i) == (if i == 0 then [] else ":") + NatToHex(xs[0]) + ColonGroups(xs[1..])
  {
    var h := NatToHex(xs[0]);
    var rest := ColonGroups(xs[1..]);
    if i == 0 {
      assert SlotText(xs, i) == h + rest;
      assert [] + h == h;
    } else {
      assert SlotText(xs, i) == ":" + h + rest;
    }
  }

  /** A slice that spells `a + b + c` spells each in turn. */
  lemma ThreePieces(s: string, pos: nat, e: nat, a: string, b: string, c: string) returns (p: nat, q: nat)
    requires pos <= e <= |s| && s[pos..e] == a + b + c
    ensures p == pos + |a| && q == p + |b| && e == q + |c|
    ensures s[pos..p] == a && s[p..q] == b && s[q..e] == c
    ensures |a| > 0 ==> s[pos] == a[0]
    ensures |b| > 0 ==> s[p] == b[0]
    ensures |c| > 0 ==> s[q] == c[0]
  {
    p, q := pos + |a|, pos + |a| + |b|;
    Piece(s, pos, a + b, c);
    Piece(s, pos, a, b);
  }

  /** At the end of a run no further slot is filled. */
  lemma ReadGroupsStop(s: string, pos: nat, i: nat, limit: nat)
    requires '.' !in s && pos <= |s| && i <= limit && GroupsEnd(s, pos)
    ensures ReadGroups(s, pos, i, limit) == ([], pos, false)
  {
    if i < limit {
      if i + 1 < limit {
        var q := AfterSeparator(s, pos, i, ':');
        if q.Some? {
          NoDotNoIpv4(s, q.value);
        }
      }
    }
  }

  /** A slot that holds a plain segment is filled with it and reading goes on. */
  lemma ReadGroupsStep(s: string, pos: nat, i: nat, limit: nat, q: nat, x: Segment, m: nat)
    requires pos <= q <= |s| && i < limit && ReadIpv4(s, q).None?
    requires AfterSeparator(s, pos, i, ':') == Some(q)
    requires ReadSegment(s, q) == Some((x, m))
    ensures m <= |s|
    ensures ReadGroups(s, pos, i, limit)
         == ([x] + ReadGroups(s, m, i + 1, limit).0, ReadGroups(s, m, i + 1, limit).1, ReadGroups(s, m, i + 1, limit).2)
  {
  }

  /** A slot with another after it that holds an IPv4 address fills both
      and ends the run. */
  lemma ReadGroupsIpv4(s: string, pos: nat, i: nat, limit: nat, q: nat, o: seq<Byte>, m: nat)
    requires pos <= q <= |s| && i + 1 < limit
    requires AfterSeparator(s, pos, i, ':') == Some(q)
    requires ReadIpv4(s, q) == Some((o, m))
    ensures ReadGroups(s, pos, i, limit) == ([Segment16(o[0], o[1]), Segment16(o[2], o[3])], m, true)
  {
  }

  /** Canonical IPv6 text that is not IPv4-mapped is read back as the
      segments it was made from. */
  lemma ParseIpv6Plain(g: seq<Segment>)
    requires |g| == 8 && g[..6] != [0, 0, 0, 0, 0, 0xffff]
    ensures ParseIpAddr(FormatIpv6(g)) == Some(V6(g))
  {
    var t := FormatIpv6(g);
    var (start, len) := LongestZeroRun(g);
    if len > 1 {
      assert t == HexGroups(g[..start]) + "::" + HexGroups(g[start + len..]);
      ReadIpv6ZeroRun(t, g, start, len);
    } else {
      assert t == HexGroups(g);
      ReadIpv6Full(t, g);
    }
    NoDotNoIpv4(t, 0);
    ParseOfIpv6(t, g);
  }

  /** Text with a run of zero segments written as "::" is read back. */
  lemma ReadIpv6ZeroRun(t: string, g: seq<Segment>, start: nat, len: nat)
    requires |g| == 8 && 1 < len && start + len <= 8
    requires forall k :: start <= k < start + len ==> g[k] == 0
    requires t == HexGroups(g[..start]) + "::" + HexGroups(g[start + len..])
    ensures '.' !in t && ReadIpv6(t, 0) == Some((g, |t|))
  {
    var head, tail := g[..start], g[start + len..];
    ReadIpv6Compressed(t, head, tail);
    ZeroRunSplice(g, head, tail, start, len);
  }

  /** Putting the zeros back between head and tail gives the segments back. */
  lemma ZeroRunSplice(g: seq<Segment>, head: seq<Segment>, tail: seq<Segment>, start: nat, len: nat)
    requires |g| == 8 && start + len <= 8 && head == g[..start] && tail == g[start + len..]
    requires forall k :: start <= k < start + len ==> g[k] == 0
    ensures Expand(head, tail) == g
  {
    var z := Zeros(8 - |head| - |tail|);
    assert z == g[start..start + len];
    assert g == g[..start] + g[start..start + len] + g[start + len..];
  }

  lemma ParseOfIpv6(t: string, g: seq<Segment>)
    requires ReadIpv4(t, 0).None? && ReadIpv6(t, 0) == Some((g, |t|))
    ensures ParseIpAddr(t) == Some(V6(g))
  {
  }

  /** Eight segments written out in full are read back. */
  lemma ReadIpv6Full(t: string, g: seq<Segment>)
    requires |g| == 8 && t == HexGroups(g)
    ensures '.' !in t
    ensures ReadIpv6(t, 0) == Some((g, |t|))
  {
    HexGroupsText(g);
    assert t[0..|t|] == SlotText(g, 0);
    ReadGroupsOfText(t, 0, |t|, 0, 8, g);
  }

  /** A head and a tail around "::" are read back, with the gap between
      them filled with zero segments. */
  lemma ReadIpv6Compressed(t: string, head: seq<Segment>, tail: seq<Segment>)
    requires |head| + |tail| <= 6 && t == HexGroups(head) + "::" + HexGroups(tail)
    ensures '.' !in t
    ensures ReadIpv6(t, 0) == Some((Expand(head, tail), |t|))
  {
    var p1 := CompressedPieces(t, head, tail);
    ReadIpv6Head(t, head, p1);
    ReadIpv6TailOfText(t, head, p1, tail);
  }

  /** Where the "::" of compressed canonical text is, and what is on either side. */
  lemma CompressedPieces(t: string, head: seq<Segment>, tail: seq<Segment>) returns (p1: nat)
    requires t == HexGroups(head) + "::" + HexGroups(tail)
    ensures '.' !in t && p1 + 2 <= |t| && t[p1] == ':' && t[p1 + 1] == ':'
    ensures t[0..p1] == SlotText(head, 0) && t[p1 + 2..|t|] == SlotText(tail, 0)
  {
    var a, b := HexGroups(head), HexGroups(tail);
    p1 := |a|;
    HexGroupsText(head);
    HexGroupsText(tail);
    HexJoin(a, b);
    var p, q := ThreePieces(t, 0, |t|, a, "::", b);
    assert t[p1..p1 + 2][1] == t[p1 + 1];
  }

  lemma HexJoin(a: string, b: string)
    requires HexText(a) && HexText(b)
    ensures HexText(a + "::" + b) && '.' !in a + "::" + b
  {
    assert HexText("::");
    HexTextAppend(a, "::");
    HexTextAppend(a + "::", b);
  }

  /** The head run of canonical text stops at the "::". */
  lemma ReadIpv6Head(t: string, head: seq<Segment>, p1: nat)
    requires '.' !in t && |head| < 8 && p1 + 1 < |t| && t[p1] == ':' && t[p1 + 1] == ':'
    requires t[0..p1] == SlotText(head, 0)
    ensures ReadIpv6(t, 0) == ReadIpv6Tail(t, head, p1)
  {
    ReadGroupsOfText(t, 0, p1, 0, 8, head);
    ReadIpv6OfHead(t, head, p1);
  }

  lemma ReadIpv6OfHead(t: string, head: seq<Segment>, p1: nat)
    requires |head| < 8 && p1 <= |t|
    requires ReadGroups(t, 0, 0, 8) == (head, p1, false)
    ensures ReadIpv6(t, 0) == ReadIpv6Tail(t, head, p1)
  {
  }

  /** The tail run of canonical text after "::" reads to the end. */
  lemma ReadIpv6TailOfText(t: string, head: seq<Segment>, p1: nat, tail: seq<Segment>)
    requires '.' !in t && |head| < 8 && p1 + 2 <= |t| && t[p1] == ':' && t[p1 + 1] == ':'
    requires |tail| <= 7 - |head| && t[p1 + 2..|t|] == SlotText(tail, 0)
    ensures ReadIpv6Tail(t, head, p1) == Some((Expand(head, tail), |t|))
  {
    var q: nat, limit: nat := p1 + 2, 7 - |head|;
    ReadGroupsOfText(t, q, |t|, 0, limit, tail);
    ReadIpv6TailOfGroups(t, head, p1, q, limit, tail, false);
  }

  lemma ReadIpv6TailOfGroups(t: string, head: seq<Segment>, p1: nat, q: nat, limit: nat, tail: seq<Segment>, ipv4: bool)
    requires |head| < 8 && q == p1 + 2 <= |t| && t[p1] == ':' && t[p1 + 1] == ':'
    requires limit == 7 - |head| && |tail| <= limit
    requires ReadGroups(t, q, 0, limit) == (tail, |t|, ipv4)
    ensures ReadIpv6Tail(t, head, p1) == Some((Expand(head, tail), |t|))
  {
    var r := ReadGroups(t, p1 + 2, 0, 7 - |head|);
    assert r.0 == tail && r.1 == |t|;
    assert ReadIpv6Tail(t, head, p1) == Some((Expand(head, r.0), r.1));
  }

  /** The canonical text of an IPv4-mapped address is read back as that address. */
  lemma ParseIpv6Mapped(g: seq<Segment>)
    requires |g| == 8 && g[..6] == [0, 0, 0, 0, 0, 0xffff]
    ensures ParseIpAddr(FormatIpv6(g)) == Some(V6(g))
  {
    var o: seq<Byte> := [g[6] / 0x100, g[6] % 0x100, g[7] / 0x100, g[7] % 0x100];
    var t := FormatIpv6(g);
    assert t == "::ffff:" + FormatIpv4(o);
    var tail := ReadIpv6Mapped(t, o);
    MappedSegments(g, o, tail);
    MappedParse(t, g);
  }

  lemma MappedSegments(g: seq<Segment>, o: seq<Byte>, tail: seq<Segment>)
    requires |g| == 8 && g[..6] == [0, 0, 0, 0, 0, 0xffff]
    requires o == [g[6] / 0x100, g[6] % 0x100, g[7] / 0x100, g[7] % 0x100]
    requires tail == [0xffff, Segment16(o[0], o[1]), Segment16(o[2], o[3])]
    ensures Expand([], tail) == g
  {
    assert Segment16(o[0], o[1]) == g[6];
    assert Segment16(o[2], o[3]) == g[7];
    assert Zeros(5) == g[..5];
  }

  lemma ReadIpv6Mapped(t: string, o: seq<Byte>) returns (tail: seq<Segment>)
    requires |o| == 4 && t == "::ffff:" + FormatIpv4(o)
    ensures tail == [0xffff, Segment16(o[0], o[1]), Segment16(o[2], o[3])]
    ensures ReadIpv6(t, 0) == Some((Expand([], tail), |t|))
  {
    tail := MappedTail(t, o);
    MappedColons(t, FormatIpv4(o));
    MappedHead(t);
    ReadIpv6OfHead(t, [], 0);
    ReadIpv6TailOfGroups(t, [], 0, 2, 7, tail, true);
  }

  lemma MappedParse(t: string, g: seq<Segment>)
    requires |t| > 0 && t[0] == ':' && ReadIpv6(t, 0) == Some((g, |t|))
    ensures ParseIpAddr(t) == Some(V6(g))
  {
    assert ReadOctet(t, 0).None?;
  }

  /** Text that starts with "::" has an empty head. */
  lemma MappedColons(t: string, v4: string)
    requires t == "::ffff:" + v4
    ensures |t| >= 2 && t[0] == ':' && t[1] == ':'
  {
  }

  lemma MappedHead(t: string)
    requires |t| >= 2 && t[0] == ':' && t[1] == ':'
    ensures ReadGroups(t, 0, 0, 8) == ([], 0, false)
  {
    assert ReadOctet(t, 0).None?;
    assert ReadSegment(t, 0).None?;
  }

  /** After "::", "ffff:" and an IPv4 address fill the last three slots. */
  lemma MappedTail(t: string, o: seq<Byte>) returns (tail: seq<Segment>)
    requires |o| == 4 && t == "::ffff:" + FormatIpv4(o)
    ensures tail == [0xffff, Segment16(o[0], o[1]), Segment16(o[2], o[3])]
    ensures ReadGroups(t, 2, 0, 7) == (tail, |t|, true)
  {
    MappedTailText(t, o);
    var rest := ReadGroups(t, 6, 1, 7);
    ReadGroupsIpv4(t, 6, 1, 7, 7, o, |t|);
    ReadGroupsStep(t, 2, 0, 7, 2, 0xffff, 6);
    tail := [0xffff] + rest.0;
  }

  lemma MappedTailText(t: string, o: seq<Byte>)
    requires |o| == 4 && t == "::ffff:" + FormatIpv4(o)
    ensures 7 < |t| && t[6] == ':'
    ensures ReadOctet(t, 2).None? && ReadIpv4(t, 2).None?
    ensures ReadSegment(t, 2) == Some((0xffff, 6))
    ensures ReadIpv4(t, 7) == Some((o, |t|))
  {
    MappedIpv4Part(t, o, "::ffff:", FormatIpv4(o));
    MappedMarker(t, FormatIpv4(o));
  }

  lemma MappedIpv4Part(t: string, o: seq<Byte>, prefix: string, v4: string)
    requires |o| == 4 && v4 == FormatIpv4(o) && |prefix| == 7 && t == prefix + v4
    ensures ReadIpv4(t, 7) == Some((o, |t|))
  {
    Suffix(t, prefix, v4);
    ReadIpv4OfFormat(t, 7, |t|, o);
  }

  /** The text after a prefix is the suffix it was joined with. */
  lemma Suffix(t: string, prefix: string, rest: string)
    requires t == prefix + rest
    ensures |t| == |prefix| + |rest| && t[|prefix|..|prefix| + |rest|] == rest
  {
    assert t[|prefix|..] == rest;
  }

  /** The "ffff" of a mapped address is a segment and not an octet. */
  lemma MappedMarker(t: string, v4: string)
    requires t == "::ffff:" + v4
    ensures 7 <= |t| && t[6] == ':'
    ensures ReadOctet(t, 2).None? && ReadIpv4(t, 2).None?
    ensures ReadSegment(t, 2) == Some((0xffff, 6))
  {
    assert t[2..6] == "ffff";
    assert NatToHex(0xffff) == "ffff";
    ReadSegmentOfNumeral(t, 2, 6, 0xffff);
  }

  // ---- The validators -------------------------------------------------------

  /** `validate_ip_address`: trim, parse as an IPv4 or IPv6 literal, and
      return the address's canonical text; a rejected input is reported
      with its trimmed text. */
  function ValidateIpAddress(ip: string): (r: Result<string, DnsError>)
    ensures r.Err? <==> ParseIpAddr(Trim(ip)).None?
    ensures r.Err? ==> r.error == InvalidIpAddress(Trim(ip))
  {
    var trimmed := Trim(ip);
    match ParseIpAddr(trimmed)
    case Some(addr) => Ok(FormatIp(addr))
    case None => Err(InvalidIpAddress(trimmed))
  }

  /** `validate_dns_pair`: both addresses validated, the primary first. */
  function ValidateDnsPair(primary: string, secondary: string): (r: Result<(string, string), DnsError>)
    ensures r.Ok? <==> ValidateIpAddress(primary).Ok? && ValidateIpAddress(secondary).Ok?
    ensures r.Ok? ==> r.value == (ValidateIpAddress(primary).value, ValidateIpAddress(secondary).value)
    ensures ValidateIpAddress(primary).Err? ==> r == Err(InvalidIpAddress(Trim(primary)))
    ensures ValidateIpAddress(primary).Ok? && ValidateIpAddress(secondary).Err? ==>
              r == Err(InvalidIpAddress(Trim(secondary)))
  {
    match ValidateIpAddress(primary)
    case Err(e) => Err(e)
    case Ok(p) =>
      match ValidateIpAddress(secondary)
      case Err(e) => Err(e)
      case Ok(s) => Ok((p, s))
  }

  /** Every well-formed address's canonical text is read back as that address. */
  lemma ParseFormatIp(a: IpAddr)
    requires WellFormed(a)
    ensures ParseIpAddr(FormatIp(a)) == Some(a)
  {
    match a
    case V4(o) =>
      ParseIpv4Exact(FormatIpv4(o), o);
    case V6(g) =>
      if g[..6] == [0, 0, 0, 0, 0, 0xffff] {
        ParseIpv6Mapped(g);
      } else {
        ParseIpv6Plain(g);
      }
  }

  /** Text made of decimal digits, lower-case hex letters, '.' and ':'. */
  predicate AddressText(t: string) {
    forall k :: 0 <= k < |t| ==> IsDigit(t[k]) || ('a' <= t[k] <= 'f') || t[k] == '.' || t[k] == ':'
  }

  lemma AddressTextAppend(a: string, b: string)
    requires AddressText(a) && AddressText(b)
    ensures AddressText(a + b)
  {
    assert forall k :: 0 <= k < |a + b| ==> (a + b)[k] == if k < |a| then a[k] else b[k - |a|];
  }

  lemma DottedText(o: seq<Byte>)
    requires |o| == 4
    ensures AddressText(FormatIpv4(o))
  {
    var d0, d1, d2, d3 := NatToDecimal(o[0]), DotNumeral(o[1]), DotNumeral(o[2]), DotNumeral(o[3]);
    assert AddressText(d0);
    assert AddressText(d1) && AddressText(d2) && AddressText(d3);
    AddressTextAppend(d0, d1);
    AddressTextAppend(d0 + d1, d2);
    AddressTextAppend(d0 + d1 + d2, d3);
  }

  /** The canonical text of an address is non-empty and made only of
      digits, 'a' to 'f', '.' and ':'. */
  lemma FormatIpText(a: IpAddr)
    requires WellFormed(a)
    ensures |FormatIp(a)| > 0 && AddressText(FormatIp(a))
  {
    match a
    case V4(o) =>
      DottedText(o);
    case V6(g) =>
      Ipv6Text(g);
  }

  lemma Ipv6Text(g: seq<Segment>)
    requires |g| == 8
    ensures |FormatIpv6(g)| > 0 && AddressText(FormatIpv6(g))
  {
    var t := FormatIpv6(g);
    if g[..6] == [0, 0, 0, 0, 0, 0xffff] {
      var o: seq<Byte> := [g[6] / 0x100, g[6] % 0x100, g[7] / 0x100, g[7] % 0x100];
      assert t == "::ffff:" + FormatIpv4(o);
      MappedText(o);
    } else {
      var (start, len) := LongestZeroRun(g);
      if len > 1 {
        var a, b := HexGroups(g[..start]), HexGroups(g[start + len..]);
        assert t == a + "::" + b;
        HexGroupsText(g[..start]);
        HexGroupsText(g[start + len..]);
        HexJoin(a, b);
        HexAddressText(t);
      } else {
        assert t == HexGroups(g);
        HexGroupsText(g);
        HexAddressText(t);
      }
    }
  }

  lemma HexAddressText(t: string)
    requires HexText(t)
    ensures AddressText(t)
  {
  }

  lemma MappedText(o: seq<Byte>)
    requires |o| == 4
    ensures AddressText("::ffff:" + FormatIpv4(o))
  {
    DottedText(o);
    assert AddressText("::ffff:");
    AddressTextAppend("::ffff:", FormatIpv4(o));
  }

  /** Canonical text has no surrounding whitespace and no character the
      sanitiser would drop. */
  lemma AddressTextIsClean(t: string)
    requires |t| > 0 && AddressText(t)
    ensures Trim(t) == t && AllArgChars(t)
  {
    assert !IsWhitespace(t[0]) && !IsWhitespace(t[|t| - 1]);
    TrimOfTrimmed(t);
  }

  /** Canonical text has no surrounding whitespace and no character the
      sanitiser would drop. */
  lemma FormatIpIsClean(a: IpAddr)
    requires WellFormed(a)
    ensures Trim(FormatIp(a)) == FormatIp(a)
    ensures AllArgChars(FormatIp(a))
  {
    FormatIpText(a);
    AddressTextIsClean(FormatIp(a));
  }

  /** The canonical text of any address validates to itself. */
  lemma ValidateCanonical(a: IpAddr)
    requires WellFormed(a)
    ensures ValidateIpAddress(FormatIp(a)) == Ok(FormatIp(a))
  {
    FormatIpIsClean(a);
    ParseFormatIp(a);
  }

  /** A validated address is the canonical text of the parsed trimmed input;
      validating it again gives it back unchanged. */
  lemma ValidateIdempotent(ip: string)
    requires ValidateIpAddress(ip).Ok?
    ensures ValidateIpAddress(ip).value == FormatIp(ParseIpAddr(Trim(ip)).value)
    ensures ValidateIpAddress(ValidateIpAddress(ip).value) == ValidateIpAddress(ip)
  {
    ValidateCanonical(ParseIpAddr(Trim(ip)).value);
  }

  /** A validated address survives the PowerShell sanitiser untouched. */
  lemma ValidatedIsShellSafe(ip: string)
    requires ValidateIpAddress(ip).Ok?
    ensures AllArgChars(ValidateIpAddress(ip).value)
    ensures SanitizePowershellArg(ValidateIpAddress(ip).value) == ValidateIpAddress(ip).value
  {
    var a := ParseIpAddr(Trim(ip)).value;
    FormatIpIsClean(a);
    SanitizeKeepsArgChars(FormatIp(a));
  }

  /** Surrounding whitespace never changes the verdict or the value. */
  lemma ValidateSeesTrimmed(ip: string)
    ensures ValidateIpAddress(Trim(ip)) == ValidateIpAddress(ip)
  {
    TrimIdempotent(ip);
  }

  /** An IPv4 literal is accepted as the address `o` exactly when, trimmed,
      it is already the canonical dotted-decimal text of `o`, which is then
      returned. */
  lemma ValidateIpv4(ip: string, o: seq<Byte>)
    requires |o| == 4
    ensures ParseIpAddr(Trim(ip)) == Some(V4(o)) <==> Trim(ip) == FormatIpv4(o)
    ensures Trim(ip) == FormatIpv4(o) ==> ValidateIpAddress(ip) == Ok(Trim(ip))
  {
    ParseIpv4Exact(Trim(ip), o);
  }

  // The example lemmas below take their literals as parameters pinned by
  // `requires` rather than writing them in the `ensures`: a literal there
  // would be a ground term the verifier unfolds the whole parser on in every
  // proof that merely has the lemma in scope, while a parameter is opened
  // only inside the lemma's own proof. Longer literals are split into
  // pieces so that the proof can name the point where parsing stops.

  /** "1.1.1.1", "8.8.8.8" and "192.168.1.1" are accepted as they are. */
  lemma AcceptsCommonAddresses(cloudflare: string, google: string, home: string)
    requires cloudflare == "1.1.1.1" && google == "8.8.8.8" && home == "192.168.1.1"
    ensures ValidateIpAddress(cloudflare) == Ok(cloudflare)
    ensures ValidateIpAddress(google) == Ok(google)
    ensures ValidateIpAddress(home) == Ok(home)
  {
    var o := OnesText();
    ValidateCanonical(V4(o));
    var e := EightsText();
    ValidateCanonical(V4(e));
    var h := HomeText();
    ValidateCanonical(V4(h));
  }

  lemma EightsText() returns (o: seq<Byte>)
    ensures |o| == 4 && FormatIpv4(o) == "8.8.8.8"
  {
    o := [8, 8, 8, 8];
    assert NatToDecimal(8) == "8";
  }

  lemma HomeText() returns (o: seq<Byte>)
    ensures |o| == 4 && FormatIpv4(o) == "192.168.1.1"
  {
    o := [192, 168, 1, 1];
    var a := NatToDecimal(192);
    assert a == "192" by { assert NatToDecimal(19) == "19"; }
    var b := DotNumeral(168);
    assert b == ".168" by { assert NatToDecimal(16) == "16"; }
    var c := DotNumeral(1);
    assert c == ".1";
    assert FormatIpv4(o) == a + b + c + c;
  }

  /** Text with no whitespace at either end that does not parse is
      rejected, and the error carries the text itself. */
  lemma RejectsUnparsable(t: string)
    requires |t| > 0 && !IsWhitespace(t[0]) && !IsWhitespace(t[|t| - 1])
    requires ParseIpAddr(t).None?
    ensures ValidateIpAddress(t) == Err(InvalidIpAddress(t))
  {
    TrimOfTrimmed(t);
  }

  /** An IPv4 address followed by anything that does not continue its last
      octet (an appended command, say) is not an address. */
  lemma RejectsIpv4WithSuffix(o: seq<Byte>, rest: string)
    requires |o| == 4 && |rest| > 0 && !IsDigit(rest[0])
    ensures ParseIpAddr(FormatIpv4(o) + rest).None?
  {
    var t := FormatIpv4(o) + rest;
    var e := |FormatIpv4(o)|;
    assert t[0..e] == FormatIpv4(o);
    ReadIpv4OfFormat(t, 0, e, o);
  }

  /** Text that starts with neither a hex digit nor ':' is not an address. */
  lemma RejectsBadStart(t: string)
    requires |t| > 0 && !IsHexDigit(t[0]) && t[0] != ':'
    ensures ParseIpAddr(t).None?
  {
    assert t[0..] == t;
    assert ReadOctet(t, 0).None?;
    assert ReadSegment(t, 0).None?;
    assert ReadGroups(t, 0, 0, 8) == ([], 0, false);
  }

  /** A first number of three digits above 255, followed by '.', is neither
      an octet nor the start of an IPv6 address. */
  lemma RejectsOverflowingOctet(d: string, rest: string)
    requires |d| == 3 && AllDigits(d) && DecimalValue(d) > 255
    requires |rest| > 0 && rest[0] == '.'
    ensures ParseIpAddr(d + rest).None?
  {
    var t := d + rest;
    assert ReadIpv4(t, 0).None? by {
      assert t[0..] == t && t[0..][..3] == d;
      DigitRunOfNumeral(d, rest);
    }
    var x := FirstSegmentStops(t, d, rest);
    ReadGroupsStep(t, 0, 0, 8, 0, x, 3);
    assert [x] + [] == [x];
    assert ReadGroups(t, 0, 0, 8) == ([x], 3, false);
    assert ReadIpv6Tail(t, [x], 3).None?;
  }

  lemma FirstSegmentStops(t: string, d: string, rest: string) returns (x: Segment)
    requires |d| == 3 && AllDigits(d) && |rest| > 0 && rest[0] == '.' && t == d + rest
    requires ReadIpv4(t, 0).None?
    ensures ReadSegment(t, 0) == Some((x, 3))
    ensures ReadGroups(t, 3, 1, 8) == ([], 3, false)
  {
    assert t[0..] == t;
    HexRunOfNumeral(d, rest);
    x := ReadSegment(t, 0).value.0;
    assert t[3] == '.';
  }

  /** "1.1.1.1; rm -rf /" is rejected whole. */
  lemma RejectsTrailingCommand(ip: string, cmd: string)
    requires ip == "1.1.1.1" && cmd == "; rm -rf /"
    ensures ValidateIpAddress(ip + cmd) == Err(InvalidIpAddress(ip + cmd))
  {
    var o := OnesText();
    RejectsIpv4WithSuffix(o, cmd);
    var t := ip + cmd;
    assert t[0] == ip[0] && t[|t| - 1] == cmd[|cmd| - 1];
    RejectsUnparsable(t);
  }

  lemma OnesText() returns (o: seq<Byte>)
    ensures |o| == 4 && FormatIpv4(o) == "1.1.1.1"
  {
    o := [1, 1, 1, 1];
    assert NatToDecimal(1) == "1";
  }

  /** "malicious" is rejected. */
  lemma RejectsWord(t: string)
    requires t == "malicious"
    ensures ValidateIpAddress(t) == Err(InvalidIpAddress(t))
  {
    RejectsBadStart(t);
    RejectsUnparsable(t);
  }

  /** "999.999.999.999", written as its first number and the rest, is rejected. */
  lemma RejectsLargeOctets(d: string, rest: string)
    requires d == "999" && rest == ".999.999.999"
    ensures ValidateIpAddress(d + rest) == Err(InvalidIpAddress(d + rest))
  {
    assert d == NatToDecimal(999);
    DecimalOfNumeral(999);
    RejectsOverflowingOctet(d, rest);
    var t := d + rest;
    assert t[0] == d[0] && t[|t| - 1] == rest[|rest| - 1];
    RejectsUnparsable(t);
  }

  /** A piece made only of allowed characters followed by one with none:
      the sanitiser keeps exactly the first. */
  lemma SanitizeKeepDrop(a: string, b: string)
    requires AllArgChars(a)
    requires forall i :: 0 <= i < |b| ==> !IsArgChar(b[i])
    ensures SanitizePowershellArg(a + b) == a
  {
    SanitizeAppend(a, b);
    SanitizeKeepsArgChars(a);
    SanitizeDropsAll(b);
  }

  lemma {:induction false} SanitizeDropsAll(b: string)
    requires forall i :: 0 <= i < |b| ==> !IsArgChar(b[i])
    ensures SanitizePowershellArg(b) == []
  {
    if |b| > 0 {
      SanitizeDropsAll(b[1..]);
    }
  }

  /** The sanitiser keeps "1.1.1.1" and, as the filter is written, turns
      "1.1.1.1; rm -rf /" (written here in three pieces) into "1.1.1.1rm-rf":
      the hyphen is an allowed character. */
  lemma SanitizerExamples(ip: string, junk: string, rm: string, sp: string, flag: string, tail: string)
    requires ip == "1.1.1.1" && junk == "; " && rm == "rm" && sp == " " && flag == "-rf" && tail == " /"
    ensures SanitizePowershellArg(ip) == ip
    ensures SanitizePowershellArg((ip + junk) + (rm + sp) + (flag + tail)) == ip + rm + flag
  {
    KeptWord(ip, junk);
    KeptWord(rm, sp);
    KeptWord(flag, tail);
    SanitizeKeepsArgChars(ip);
    var x, y, z := ip + junk, rm + sp, flag + tail;
    SanitizeAppend(x + y, z);
    SanitizeAppend(x, y);
  }

  /** One word of the example and the separator after it: the word is kept,
      the separator dropped. */
  lemma KeptWord(w: string, sep: string)
    requires w in {"1.1.1.1", "rm", "-rf"} && sep in {"; ", " ", " /"}
    ensures AllArgChars(w) && SanitizePowershellArg(w + sep) == w
  {
    assert AllArgChars(w) by {
      forall i | 0 <= i < |w| ensures IsArgChar(w[i]) {
        assert w[i] == '.' || w[i] == '-' || ('0' <= w[i] <= '9') || ('a' <= w[i] <= 'z');
      }
    }
    assert forall i :: 0 <= i < |sep| ==> sep[i] == ';' || sep[i] == ' ' || sep[i] == '/';
    SanitizeKeepDrop(w, sep);
  }

  /** The unit test's expectation "1.1.1.1rmrf" does not hold: the hyphen
      of "-rf" survives. */
  lemma SanitizerTestExpectation(ip: string, junk: string, rm: string, sp: string, flag: string, tail: string)
    requires ip == "1.1.1.1" && junk == "; " && rm == "rm" && sp == " " && flag == "-rf" && tail == " /"
    ensures SanitizePowershellArg((ip + junk) + (rm + sp) + (flag + tail)) != "1.1.1.1rmrf"
  {
    SanitizerExamples(ip, junk, rm, sp, flag, tail);
    var r := ip + rm + flag;
    assert r[9] == '-';
    assert "1.1.1.1rmrf"[9] == 'r';
  }

  // ---- The sanitiser ----------------------------------------------------------

  /** `char::is_alphanumeric` (Unicode Alphabetic or Numeric), exact for
      ASCII, Latin-1 and the Cyrillic block; other scripts are not covered. */
  predicate IsAlphanumeric(c: char) {
    ('a' <= c <= 'z') || ('A' <= c <= 'Z') || ('0' <= c <= '9')
    || c == '\U{AA}' || c == '\U{B2}' || c == '\U{B3}' || c == '\U{B5}'
    || c == '\U{B9}' || c == '\U{BA}' || ('\U{BC}' <= c <= '\U{BE}')
    || ('\U{C0}' <= c <= '\U{D6}') || ('\U{D8}' <= c <= '\U{F6}') || ('\U{F8}' <= c <= '\U{FF}')
    || ('\U{400}' <= c <= '\U{481}') || ('\U{48A}' <= c <= '\U{4FF}')
  }

  /** The characters `sanitize_powershell_arg` lets through. */
  predicate IsArgChar(c: char) {
    IsAlphanumeric(c) || c == '.' || c == ':' || c == '-'
  }

  predicate AllArgChars(s: string) {
    forall i :: 0 <= i < |s| ==> IsArgChar(s[i])
  }

  /** `sanitize_powershell_arg`: the characters of `arg` that are
      alphanumeric, '.', ':' or '-', in their original order. */
  function SanitizePowershellArg(arg: string): (r: string)
    ensures |r| <= |arg|
    ensures AllArgChars(r)
  {
    if |arg| == 0 then []
    else (if IsArgChar(arg[0]) then [arg[0]] else []) + SanitizePowershellArg(arg[1..])
  }

  /** Sanitising distributes over concatenation: each character is kept or
      dropped on its own, so the output is the subsequence of allowed characters. */
  lemma {:induction false} SanitizeAppend(a: string, b: string)
    ensures SanitizePowershellArg(a + b) == SanitizePowershellArg(a) + SanitizePowershellArg(b)
  {
    if |a| == 0 {
      assert a + b == b;
    } else {
      var keep := if IsArgChar(a[0]) then [a[0]] else [];
      assert (a + b)[0] == a[0];
      assert (a + b)[1..] == a[1..] + b;
      SanitizeAppend(a[1..], b);
      calc {
        SanitizePowershellArg(a + b);
        keep + SanitizePowershellArg(a[1..] + b);
        keep + (SanitizePowershellArg(a[1..]) + SanitizePowershellArg(b));
        (keep + SanitizePowershellArg(a[1..])) + SanitizePowershellArg(b);
      }
    }
  }

  /** Text made only of allowed characters passes through unchanged. */
  lemma {:induction false} SanitizeKeepsArgChars(s: string)
    requires AllArgChars(s)
    ensures SanitizePowershellArg(s) == s
  {
    if |s| > 0 {
      SanitizeKeepsArgChars(s[1..]);
    }
  }

  /** Sanitising twice is sanitising once. */
  lemma SanitizeIdempotent(s: string)
    ensures SanitizePowershellArg(SanitizePowershellArg(s)) == SanitizePowershellArg(s)
  {
    SanitizeKeepsArgChars(SanitizePowershellArg(s));
  }
}
