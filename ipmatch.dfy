/** The address matcher: parses IPv4 dotted-quad and IPv6 colon text (RFC 4291 section 2.2),
    CIDR prefixes (RFC 4632 section 3.1, RFC 4291 section 2.3), tests an address against an
    allow-list entry and classifies special-purpose ranges. Every operation answers `false` on
    text it cannot parse instead of failing. */
module IpMatch {
  import opened Wrappers
  import opened Text
  import opened Bits

  datatype Kind = V4 | V6

  /** An address: four octets or eight 16-bit groups, most significant first. */
  datatype Address = IPv4(octets: seq<nat>) | IPv6(groups: seq<nat>) {

    function Kind(): Kind {
      if IPv4? then V4 else V6
    }

    function Parts(): seq<nat> {
      if IPv4? then octets else groups
    }

    /** Bits per part. */
    function PartSize(): nat {
      if IPv4? then 8 else 16
    }

    /** Bits in the address: the longest prefix length. */
    function Width(): nat {
      if IPv4? then 32 else 128
    }

    predicate Valid() {
      match this
      case IPv4(o) => |o| == 4 && forall i :: 0 <= i < 4 ==> o[i] < 256
      case IPv6(g) => |g| == 8 && forall i :: 0 <= i < 8 ==> g[i] < 65536
    }
  }

  /** An address with a prefix length, as `parseCIDR` returns it. */
  datatype Cidr = Cidr(net: Address, bits: nat)

  // ---------------------------------------------------------------- parsing

  /** Applies a part parser to every piece; fails if any piece fails. */
  function ParseAll(pieces: seq<string>, parse: string -> Option<nat>): (r: Option<seq<nat>>)
    ensures r.Some? <==> forall i :: 0 <= i < |pieces| ==> parse(pieces[i]).Some?
    ensures r.Some? ==> |r.value| == |pieces|
    ensures r.Some? ==> forall i :: 0 <= i < |pieces| ==> parse(pieces[i]) == Some(r.value[i])
  {
    if pieces == [] then Some([])
    else
      match (parse(pieces[0]), ParseAll(pieces[1..], parse))
      case (Some(v), Some(vs)) => Some([v] + vs)
      case _ =>
        assert forall i :: 1 <= i < |pieces| ==> pieces[i] == pieces[1..][i - 1];
        None
  }

  /** One dotted-quad part: decimal digits with no leading zero, at most 255. */
  function ParseOctet(s: string): (r: Option<nat>)
    ensures r.Some? ==> r.value < 256
  {
    var d := ParseDigits(s, 10);
    if d.Some? && d.value <= 255 && (|s| == 1 || s[0] != '0') then d else None
  }

  /** One IPv6 group: one to four hexadecimal digits, either case. */
  function ParseGroup(s: string): (r: Option<nat>)
    ensures r.Some? ==> r.value < 65536
  {
    if |s| <= 4 && ParseDigits(s, 16).Some? then
      DigitsBound16(s);
      ParseDigits(s, 16)
    else None
  }

  function ParseIPv4(s: string): (r: Option<Address>)
    ensures r.Some? ==> r.value.IPv4? && r.value.Valid()
  {
    var pieces := Split(s, '.');
    if |pieces| != 4 then None
    else
      match ParseAll(pieces, ParseOctet)
      case Some(o) => Some(IPv4(o))
      case None => None
  }

  /** The groups of a colon-separated run; the empty text is no groups. */
  function ParseGroupList(s: string): (r: Option<seq<nat>>)
    ensures r.Some? ==> forall i :: 0 <= i < |r.value| ==> r.value[i] < 65536
  {
    if s == [] then Some([]) else ParseAll(Split(s, ':'), ParseGroup)
  }

  /** Where the first "::" starts, if anywhere. */
  function FindDoubleColon(s: string): (r: Option<nat>)
    ensures r.Some? ==> r.value + 1 < |s| && s[r.value] == ':' && s[r.value + 1] == ':'
    ensures r.None? ==> forall i :: 0 <= i < |s| - 1 ==> !(s[i] == ':' && s[i + 1] == ':')
  {
    if |s| < 2 then None
    else if s[0] == ':' && s[1] == ':' then Some(0)
    else
      match FindDoubleColon(s[1..])
      case Some(i) => Some(i + 1)
      case None =>
        assert forall i :: 1 <= i < |s| - 1 ==> s[i] == s[1..][i - 1] && s[i + 1] == s[1..][i];
        None
  }

  function Zeros(n: nat): (r: seq<nat>)
    ensures |r| == n && forall i :: 0 <= i < n ==> r[i] == 0
  {
    if n == 0 then [] else [0] + Zeros(n - 1)
  }

  /** The groups written around a "::", with the zero groups it stands for between them. */
  function Fill(l: seq<nat>, rt: seq<nat>): (g: seq<nat>)
    requires |l| + |rt| <= 7
    requires forall k :: 0 <= k < |l| ==> l[k] < 65536
    requires forall k :: 0 <= k < |rt| ==> rt[k] < 65536
    ensures |g| == 8 && g[..|l|] == l && g[8 - |rt|..] == rt
    ensures forall k :: |l| <= k < 8 - |rt| ==> g[k] == 0
    ensures forall k :: 0 <= k < 8 ==> g[k] < 65536
  {
    var g := l + Zeros(8 - |l| - |rt|) + rt;
    assert forall k :: 8 - |rt| <= k < 8 ==> g[k] == rt[k - (8 - |rt|)];
    g
  }

  /** Eight groups, or fewer around one "::" that stands for one or more zero groups. */
  function ParseIPv6(s: string): (r: Option<Address>)
    ensures r.Some? ==> r.value.IPv6? && r.value.Valid()
  {
    match FindDoubleColon(s)
    case None =>
      var pieces := Split(s, ':');
      if |pieces| != 8 then None
      else
        (match ParseAll(pieces, ParseGroup)
         case Some(g) => Some(IPv6(g))
         case None => None)
    case Some(i) =>
      match (ParseGroupList(s[..i]), ParseGroupList(s[i + 2..]))
      case (Some(l), Some(rt)) =>
        if |l| + |rt| <= 7 then
          Some(IPv6(Fill(l, rt)))
        else None
      case _ => None
  }

  /** ipaddr.js `parse`: IPv6 first, then IPv4. */
  function ParseAddress(s: string): (r: Option<Address>)
    ensures r.Some? ==> r.value.Valid()
    ensures r.Some? ==> '/' !in s
  {
    var six := ParseIPv6(s);
    if six.Some? then
      NoSlashInIPv6(s);
      six
    else
      var four := ParseIPv4(s);
      if four.Some? then NoSlashInIPv4(s); four else four
  }

  /** Index of the last occurrence of `c`. */
  function LastIndexOf(s: string, c: char): (r: Option<nat>)
    ensures r.Some? ==> r.value < |s| && s[r.value] == c && c !in s[r.value + 1..]
    ensures r.None? ==> c !in s
  {
    if s == [] then None
    else if s[|s| - 1] == c then Some(|s| - 1)
    else
      var r := LastIndexOf(s[..|s| - 1], c);
      assert s == s[..|s| - 1] + [s[|s| - 1]];
      if r.Some? then
        assert s[r.value + 1..] == s[..|s| - 1][r.value + 1..] + [s[|s| - 1]];
        r
      else r
  }

  /** ipaddr.js `parseCIDR`: text of the form "<address>/<decimal digits>", split at the
      last '/', with the length at most the address's width. */
  function ParseCidr(s: string): (r: Option<Cidr>)
    ensures r.Some? ==> r.value.net.Valid() && r.value.bits <= r.value.net.Width()
    ensures r.Some? ==> '/' in s
  {
    match LastIndexOf(s, '/')
    case None => None
    case Some(i) =>
      match (ParseAddress(s[..i]), ParseDigits(s[i + 1..], 10))
      case (Some(a), Some(p)) => if p <= a.Width() then Some(Cidr(a, p)) else None
      case _ => None
  }

  // ---------------------------------------------------------------- canonical text

  function FormatParts(parts: seq<nat>, base: nat): (r: seq<string>)
    requires base == 10 || base == 16
    ensures |r| == |parts|
    ensures forall i :: 0 <= i < |r| ==> r[i] == FormatNat(parts[i], base)
  {
    if parts == [] then [] else [FormatNat(parts[0], base)] + FormatParts(parts[1..], base)
  }

  /** `toString()`: decimal octets joined with '.', or lower-case hexadecimal groups joined
      with ':'. */
  function ToText(a: Address): string
  {
    match a
    case IPv4(o) => Join(FormatParts(o, 10), ".")
    case IPv6(g) => Join(FormatParts(g, 16), ":")
  }

  // ---------------------------------------------------------------- matching

  /** The top `p` bits of two addresses of one family agree. */
  predicate TopBitsEqual(a: Address, n: Address, p: nat)
    requires a.Valid() && n.Valid() && a.Kind() == n.Kind() && p <= a.Width()
  {
    AllBits(a.Parts(), a.PartSize())[..p] == AllBits(n.Parts(), n.PartSize())[..p]
  }

  /** ipaddr.js `match(range, bits)` on two addresses of one family. */
  function InRange(a: Address, n: Address, p: nat): bool
    requires a.Valid() && n.Valid() && a.Kind() == n.Kind()
  {
    MatchParts(a.Parts(), n.Parts(), a.PartSize(), p)
  }

  /** What an allow-list entry denotes: a CIDR's network address when it holds a '/', the
      address itself otherwise. */
  function EntryAddress(entry: string): (r: Option<Address>)
    ensures r.Some? ==> r.value.Valid()
  {
    if '/' in entry then
      match ParseCidr(entry)
      case Some(c) => Some(c.net)
      case None => None
    else ParseAddress(entry)
  }

  /** `ipMatches`: does `requestIp` fall in the allow-list entry `allowedCidr`?
      A match needs both texts to parse and both addresses to be of one family. */
  function IpMatches(requestIp: string, allowedCidr: string): (r: bool)
    ensures r ==> ParseAddress(requestIp).Some? && EntryAddress(allowedCidr).Some?
    ensures r ==> ParseAddress(requestIp).value.Kind() == EntryAddress(allowedCidr).value.Kind()
  {
    match ParseAddress(requestIp)
    case None => false
    case Some(addr) =>
      if '/' in allowedCidr then
        match ParseCidr(allowedCidr)
        case None => false
        case Some(c) =>
          if addr.Kind() != c.net.Kind() then false
          else InRange(addr, c.net, c.bits)
      else
        match ParseAddress(allowedCidr)
        case None => false
        case Some(other) =>
          if addr.Kind() != other.Kind() then false
          else ToText(addr) == ToText(other)
  }

  /** `isValidIpOrCidr`: the CIDR parser when the text holds a '/', the address parser
      otherwise. */
  function IsValidIpOrCidr(s: string): (r: bool)
    ensures r <==> EntryAddress(s).Some?
  {
    if '/' in s then ParseCidr(s).Some? else ParseAddress(s).Some?
  }

  // ---------------------------------------------------------------- range classification

  /** The named ranges of ipaddr.js `range()`; anything else is `Unicast`. */
  datatype Range =
    | Unspecified | Broadcast | Multicast | LinkLocal | Loopback | CarrierGradeNat
    | Private | Reserved | UniqueLocal | IPv4Mapped | Rfc6145 | Rfc6052 | SixToFour | Teredo
    | Unicast

  datatype SpecialRange = SpecialRange(name: Range, net: Address, bits: nat)

  /** The special-purpose blocks of the ipaddr.js range table (the blocks its 1.x and 2.x
      releases share), in the order it tries them. */
  function SpecialRanges(): (r: seq<SpecialRange>)
    ensures forall i :: 0 <= i < |r| ==> r[i].net.Valid() && r[i].name != Unicast
  {
    [ SpecialRange(Unspecified, IPv4([0, 0, 0, 0]), 8),
      SpecialRange(Broadcast, IPv4([255, 255, 255, 255]), 32),
      SpecialRange(Multicast, IPv4([224, 0, 0, 0]), 4),
      SpecialRange(LinkLocal, IPv4([169, 254, 0, 0]), 16),
      SpecialRange(Loopback, IPv4([127, 0, 0, 0]), 8),
      SpecialRange(CarrierGradeNat, IPv4([100, 64, 0, 0]), 10),
      SpecialRange(Private, IPv4([10, 0, 0, 0]), 8),
      SpecialRange(Private, IPv4([172, 16, 0, 0]), 12),
      SpecialRange(Private, IPv4([192, 168, 0, 0]), 16),
      SpecialRange(Reserved, IPv4([192, 0, 0, 0]), 24),
      SpecialRange(Reserved, IPv4([192, 0, 2, 0]), 24),
      SpecialRange(Reserved, IPv4([192, 88, 99, 0]), 24),
      SpecialRange(Reserved, IPv4([198, 51, 100, 0]), 24),
      SpecialRange(Reserved, IPv4([203, 0, 113, 0]), 24),
      SpecialRange(Reserved, IPv4([240, 0, 0, 0]), 4),
      SpecialRange(Unspecified, IPv6([0, 0, 0, 0, 0, 0, 0, 0]), 128),
      SpecialRange(LinkLocal, IPv6([0xfe80, 0, 0, 0, 0, 0, 0, 0]), 10),
      SpecialRange(Multicast, IPv6([0xff00, 0, 0, 0, 0, 0, 0, 0]), 8),
      SpecialRange(Loopback, IPv6([0, 0, 0, 0, 0, 0, 0, 1]), 128),
      SpecialRange(UniqueLocal, IPv6([0xfc00, 0, 0, 0, 0, 0, 0, 0]), 7),
      SpecialRange(IPv4Mapped, IPv6([0, 0, 0, 0, 0, 0xffff, 0, 0]), 96),
      SpecialRange(Rfc6145, IPv6([0, 0, 0, 0, 0xffff, 0, 0, 0]), 96),
      SpecialRange(Rfc6052, IPv6([0x64, 0xff9b, 0, 0, 0, 0, 0, 0]), 96),
      SpecialRange(SixToFour, IPv6([0x2002, 0, 0, 0, 0, 0, 0, 0]), 16),
      SpecialRange(Teredo, IPv6([0x2001, 0, 0, 0, 0, 0, 0, 0]), 32),
      SpecialRange(Reserved, IPv6([0x2001, 0xdb8, 0, 0, 0, 0, 0, 0]), 32) ]
  }

  predicate InSpecial(a: Address, s: SpecialRange)
    requires a.Valid() && s.net.Valid()
  {
    a.Kind() == s.net.Kind() && InRange(a, s.net, s.bits)
  }

  /** ipaddr.js `subnetMatch`: the name of the first listed range holding `a`. */
  function FirstRange(a: Address, table: seq<SpecialRange>): (r: Range)
    requires a.Valid() && forall i :: 0 <= i < |table| ==> table[i].net.Valid()
  {
    if table == [] then Unicast
    else if InSpecial(a, table[0]) then table[0].name
    else FirstRange(a, table[1..])
  }

  function RangeOf(a: Address): Range
    requires a.Valid()
  {
    FirstRange(a, SpecialRanges())
  }

  /** `isPrivateIp`: the address parses and lies outside global unicast. */
  function IsPrivateIp(ip: string): (r: bool)
    ensures r ==> ParseAddress(ip).Some?
  {
    match ParseAddress(ip)
    case None => false
    case Some(a) => RangeOf(a) != Unicast
  }

  // ---------------------------------------------------------------- parser lemmas

  lemma {:induction false} DigitsBound16(s: string)
    requires |s| <= 4 && ParseDigits(s, 16).Some?
    ensures ParseDigits(s, 16).value < 65536
  {
    DigitsBelow16(s);
  }

  lemma {:induction false} DigitsBelow16(s: string)
    requires IsDigits(s, 16)
    ensures |s| == 0 ==> DigitsValue(s, 16) < 1
    ensures |s| == 1 ==> DigitsValue(s, 16) < 16
    ensures |s| == 2 ==> DigitsValue(s, 16) < 256
    ensures |s| == 3 ==> DigitsValue(s, 16) < 4096
    ensures |s| == 4 ==> DigitsValue(s, 16) < 65536
  {
    if s != [] {
      var init := s[..|s| - 1];
      assert IsDigits(init, 16) by {
        forall i | 0 <= i < |init| ensures DigitValue(init[i], 16).Some? {
          assert init[i] == s[i];
        }
      }
      DigitsBelow16(init);
    }
  }

  function Pow16(k: nat): nat
  {
    if k == 0 then 1 else 16 * Pow16(k - 1)
  }

  lemma {:induction false} FormatLength(n: nat, k: nat)
    requires k >= 1 && n < Pow16(k)
    ensures |FormatNat(n, 16)| <= k
  {
    if n >= 16 {
      assert k >= 2;
      FormatLength(n / 16, k - 1);
    }
  }

  lemma FormatLength16(n: nat)
    requires n < 65536
    ensures |FormatNat(n, 16)| <= 4
  {
    assert Pow16(4) == 65536;
    FormatLength(n, 4);
  }

  lemma {:induction false} NoSlashInPieces(s: string, sep: char, c: char)
    requires c != sep && c in s
    ensures exists i :: 0 <= i < |Split(s, sep)| && c in Split(s, sep)[i]
  {
    var r := Split(s, sep);
    if s[0] == c {
      assert c in r[0];
    } else {
      NoSlashInPieces(s[1..], sep, c);
      var rest := Split(s[1..], sep);
      var i :| 0 <= i < |rest| && c in rest[i];
      if s[0] == sep {
        assert r[i + 1] == rest[i];
      } else if i == 0 {
        assert r[0] == [s[0]] + rest[0];
      } else {
        assert r[i] == rest[i];
      }
    }
  }

  /** Text whose pieces all parse as digit strings holds no '/'. */
  lemma SplitPartsNoSlash(s: string, sep: char, parse: string -> Option<nat>, base: nat)
    requires base == 10 || base == 16
    requires sep != '/'
    requires forall p :: parse(p).Some? ==> IsDigits(p, base)
    requires ParseAll(Split(s, sep), parse).Some?
    ensures '/' !in s
  {
    var pieces := Split(s, sep);
    forall i | 0 <= i < |pieces| ensures '/' !in pieces[i] {
      assert parse(pieces[i]).Some?;
      assert IsDigits(pieces[i], base);
    }
    if '/' in s {
      NoSlashInPieces(s, sep, '/');
    }
  }

  lemma NoSlashInIPv4(s: string)
    requires ParseIPv4(s).Some?
    ensures '/' !in s
  {
    assert forall p :: ParseOctet(p).Some? ==> IsDigits(p, 10);
    SplitPartsNoSlash(s, '.', ParseOctet, 10);
  }

  lemma GroupListNoSlash(s: string)
    requires ParseGroupList(s).Some?
    ensures '/' !in s
  {
    if s != [] {
      assert forall p :: ParseGroup(p).Some? ==> IsDigits(p, 16);
      SplitPartsNoSlash(s, ':', ParseGroup, 16);
    }
  }

  lemma NoSlashInIPv6(s: string)
    requires ParseIPv6(s).Some?
    ensures '/' !in s
  {
    match FindDoubleColon(s)
    case None =>
      assert ParseAll(Split(s, ':'), ParseGroup).Some?;
      assert forall p :: ParseGroup(p).Some? ==> IsDigits(p, 16);
      SplitPartsNoSlash(s, ':', ParseGroup, 16);
    case Some(i) =>
      assert ParseGroupList(s[..i]).Some? && ParseGroupList(s[i + 2..]).Some?;
      NoSlashAroundDoubleColon(s, i);
  }

  lemma NoSlashAroundDoubleColon(s: string, i: nat)
    requires i + 1 < |s| && s[i] == ':' && s[i + 1] == ':'
    requires ParseGroupList(s[..i]).Some? && ParseGroupList(s[i + 2..]).Some?
    ensures '/' !in s
  {
    GroupListNoSlash(s[..i]);
    GroupListNoSlash(s[i + 2..]);
    NoSlashAround(s, i);
  }

  lemma NoSlashAround(s: string, i: nat)
    requires i + 1 < |s| && s[i] == ':' && s[i + 1] == ':'
    requires '/' !in s[..i] && '/' !in s[i + 2..]
    ensures '/' !in s
  {
    forall k | 0 <= k < |s| ensures s[k] != '/' {
      if k < i {
        assert s[k] == s[..i][k];
      } else if k >= i + 2 {
        assert s[k] == s[i + 2..][k - i - 2];
      }
    }
  }

  // ---------------------------------------------------------------- canonical text round trip

  lemma {:induction false} ParseAllFormat(parts: seq<nat>, base: nat, parse: string -> Option<nat>)
    requires base == 10 || base == 16
    requires forall i :: 0 <= i < |parts| ==> parse(FormatNat(parts[i], base)) == Some(parts[i])
    ensures ParseAll(FormatParts(parts, base), parse) == Some(parts)
  {
    if parts != [] {
      ParseAllFormat(parts[1..], base, parse);
      assert FormatParts(parts, base)[1..] == FormatParts(parts[1..], base);
      assert [parts[0]] + parts[1..] == parts;
    }
  }

  lemma {:induction false} JoinAvoids(parts: seq<string>, sep: char, c: char)
    requires c != sep && forall i :: 0 <= i < |parts| ==> c !in parts[i]
    ensures c !in Join(parts, [sep])
  {
    if |parts| > 1 {
      JoinAvoids(parts[1..], sep, c);
    }
  }

  /** Joining non-empty colon-free groups with ':' never produces "::" or a leading ':'. */
  lemma {:induction false} JoinNoDoubleColon(parts: seq<string>)
    requires |parts| >= 1
    requires forall i :: 0 <= i < |parts| ==> parts[i] != [] && ':' !in parts[i]
    ensures var j := Join(parts, ":"); j != [] && j[0] != ':'
    ensures FindDoubleColon(Join(parts, ":")).None?
  {
    var j := Join(parts, ":");
    if |parts| > 1 {
      JoinNoDoubleColon(parts[1..]);
      var t := Join(parts[1..], ":");
      var p := parts[0];
      assert j == p + ":" + t;
      forall i | 0 <= i < |j| - 1 ensures !(j[i] == ':' && j[i + 1] == ':') {
        if i < |p| {
          assert j[i] == p[i];
        } else if i == |p| {
          assert j[i + 1] == t[0];
        } else {
          assert j[i] == t[i - |p| - 1] && j[i + 1] == t[i - |p|];
          assert FindDoubleColon(t).None?;
        }
      }
    } else {
      assert j == parts[0];
    }
  }

  /** Reading back the canonical text gives the address again. */
  lemma TextRoundTrip(a: Address)
    requires a.Valid()
    ensures ParseAddress(ToText(a)) == Some(a)
  {
    match a
    case IPv4(o) =>
      var pieces := FormatParts(o, 10);
      var t := ToText(a);
      JoinAvoids(pieces, '.', ':');
      JoinAvoids(pieces, '.', '/');
      SplitWithout(t, ':');
      assert ParseIPv6(t).None?;
      SplitJoin(pieces, '.');
      forall i | 0 <= i < |o| ensures ParseOctet(FormatNat(o[i], 10)) == Some(o[i]) {
        ParseFormat(o[i], 10);
      }
      ParseAllFormat(o, 10, ParseOctet);
    case IPv6(g) =>
      var pieces := FormatParts(g, 16);
      var t := ToText(a);
      JoinNoDoubleColon(pieces);
      SplitJoin(pieces, ':');
      forall i | 0 <= i < |g| ensures ParseGroup(FormatNat(g[i], 16)) == Some(g[i]) {
        ParseFormat(g[i], 16);
        FormatLength16(g[i]);
      }
      ParseAllFormat(g, 16, ParseGroup);
  }

  /** Two valid addresses have the same canonical text only when they are equal. */
  lemma ToTextInjective(a: Address, b: Address)
    requires a.Valid() && b.Valid()
    ensures ToText(a) == ToText(b) <==> a == b
  {
    TextRoundTrip(a);
    TextRoundTrip(b);
  }

  // ---------------------------------------------------------------- matching lemmas

  /** ipaddr.js `match` is containment in the prefix: the top `p` bits agree. */
  lemma InRangeIsTopBits(a: Address, n: Address, p: nat)
    requires a.Valid() && n.Valid() && a.Kind() == n.Kind() && p <= a.Width()
    ensures InRange(a, n, p) <==> TopBitsEqual(a, n, p)
  {
    assert Pow2(8) == 256;
    assert Pow2(16) == 65536;
    MatchPartsIsPrefix(a.Parts(), n.Parts(), a.PartSize(), p);
  }

  /** For a same-family CIDR entry, the request matches iff its top bits equal the
      network's. */
  lemma CidrMatchIsPrefix(requestIp: string, allowedCidr: string)
    requires '/' in allowedCidr
    requires ParseAddress(requestIp).Some? && ParseCidr(allowedCidr).Some?
    requires ParseAddress(requestIp).value.Kind() == ParseCidr(allowedCidr).value.net.Kind()
    ensures var a, c := ParseAddress(requestIp).value, ParseCidr(allowedCidr).value;
      IpMatches(requestIp, allowedCidr) <==> TopBitsEqual(a, c.net, c.bits)
  {
    var a, c := ParseAddress(requestIp).value, ParseCidr(allowedCidr).value;
    InRangeIsTopBits(a, c.net, c.bits);
  }

  /** An entry without '/' matches only the very same address. */
  lemma ExactMatchIsEquality(requestIp: string, allowed: string)
    requires '/' !in allowed
    requires ParseAddress(requestIp).Some? && ParseAddress(allowed).Some?
    ensures IpMatches(requestIp, allowed) <==> ParseAddress(requestIp) == ParseAddress(allowed)
  {
    ToTextInjective(ParseAddress(requestIp).value, ParseAddress(allowed).value);
  }

  lemma {:induction false} LastSlash(t: string, d: string)
    requires '/' !in d
    ensures LastIndexOf(t + "/" + d, '/') == Some(|t|)
  {
    if d != [] {
      var s := t + "/" + d;
      assert s[..|s| - 1] == t + "/" + d[..|d| - 1];
      assert s[|s| - 1] == d[|d| - 1];
      LastSlash(t, d[..|d| - 1]);
    } else {
      assert t + "/" + d == t + "/";
    }
  }

  /** A CIDR text "t/d" is valid exactly when `t` parses, `d` is decimal digits and the
      length does not exceed 32 (IPv4) or 128 (IPv6). */
  lemma CidrValidity(t: string, d: string)
    ensures var s := t + "/" + d;
      IsValidIpOrCidr(s) <==>
        '/' !in d && ParseAddress(t).Some? && ParseDigits(d, 10).Some?
        && ParseDigits(d, 10).value <= ParseAddress(t).value.Width()
  {
    var s := t + "/" + d;
    assert s[|t|] == '/';
    if '/' !in d {
      LastSlash(t, d);
      assert s[..|t|] == t && s[|t| + 1..] == d;
    } else {
      var k :| 0 <= k < |d| && d[k] == '/';
      assert s[|t| + 1 + k] == '/';
    }
  }

  lemma FullLengthText()
    ensures ParseDigits("32", 10) == Some(32) && ParseDigits("128", 10) == Some(128)
  {
    assert "32"[..1] == "3" && "3"[..0] == "";
    assert "128"[..2] == "12" && "12"[..1] == "1" && "1"[..0] == "";
  }

  /** Every parsable address matches itself as an exact entry and as a full-length prefix. */
  lemma MatchesItself(s: string)
    requires ParseAddress(s).Some?
    ensures IpMatches(s, s)
    ensures var full := if ParseAddress(s).value.IPv4? then "32" else "128";
      IpMatches(s, s + "/" + full)
  {
    var a := ParseAddress(s).value;
    var full := if a.IPv4? then "32" else "128";
    var e := s + "/" + full;
    FullLengthText();
    LastSlash(s, full);
    assert e[..|s|] == s && e[|s| + 1..] == full;
    assert e[|s|] == '/';
    MatchPartsReflexive(a.Parts(), a.PartSize(), a.Width());
  }

  // ---------------------------------------------------------------- classification lemmas

  lemma {:induction false} FirstRangeFindsAny(a: Address, table: seq<SpecialRange>)
    requires a.Valid() && forall i :: 0 <= i < |table| ==> table[i].net.Valid()
    requires forall i :: 0 <= i < |table| ==> table[i].name != Unicast
    ensures FirstRange(a, table) != Unicast <==> exists i :: 0 <= i < |table| && InSpecial(a, table[i])
  {
    if table != [] {
      FirstRangeFindsAny(a, table[1..]);
      if exists i :: 0 <= i < |table[1..]| && InSpecial(a, table[1..][i]) {
        var i :| 0 <= i < |table[1..]| && InSpecial(a, table[1..][i]);
        assert InSpecial(a, table[i + 1]);
      }
      if exists i :: 0 <= i < |table| && InSpecial(a, table[i]) {
        var i :| 0 <= i < |table| && InSpecial(a, table[i]);
        if i > 0 {
          assert table[1..][i - 1] == table[i];
        }
      }
    }
  }

  /** `isPrivateIp` holds exactly for parsable addresses inside some special-purpose block. */
  lemma PrivateIffSpecial(ip: string)
    ensures IsPrivateIp(ip) <==>
      ParseAddress(ip).Some? &&
      exists i :: 0 <= i < |SpecialRanges()| && InSpecial(ParseAddress(ip).value, SpecialRanges()[i])
  {
    if ParseAddress(ip).Some? {
      FirstRangeFindsAny(ParseAddress(ip).value, SpecialRanges());
    }
  }

  lemma InSpecialIsPrivate(a: Address, i: nat)
    requires a.Valid() && i < |SpecialRanges()| && InSpecial(a, SpecialRanges()[i])
    ensures RangeOf(a) != Unicast
  {
    FirstRangeFindsAny(a, SpecialRanges());
  }

  lemma Shr4(x: nat)
    ensures Shr(x, 4) == x / 16
  {
    assert Shr(x, 4) == Shr(x / 2, 3);
    assert Shr(x / 2, 3) == Shr(x / 2 / 2, 2);
    assert Shr(x / 2 / 2, 2) == Shr(x / 2 / 2 / 2, 1);
    assert Shr(x / 2 / 2 / 2, 1) == x / 2 / 2 / 2 / 2;
  }

  /** The RFC 1918 private-use blocks (section 3) and 127/8 are not global unicast. */
  lemma PrivateBlocksArePrivate(a: Address)
    requires a.IPv4? && a.Valid()
    requires a.octets[0] == 10 || a.octets[0] == 127
      || (a.octets[0] == 172 && 16 <= a.octets[1] < 32)
      || (a.octets[0] == 192 && a.octets[1] == 168)
    ensures RangeOf(a) != Unicast
  {
    var t := SpecialRanges();
    var o := a.octets;
    if o[0] == 10 {
      assert InSpecial(a, t[6]);
      InSpecialIsPrivate(a, 6);
    } else if o[0] == 127 {
      assert InSpecial(a, t[4]);
      InSpecialIsPrivate(a, 4);
    } else if o[0] == 172 {
      Shr4(o[1]);
      Shr4(16);
      assert InSpecial(a, t[7]);
      InSpecialIsPrivate(a, 7);
    } else {
      assert InSpecial(a, t[8]);
      InSpecialIsPrivate(a, 8);
    }
  }

  /** Two dotted quads that agree in their first three octets match on a /24 prefix. */
  lemma {:induction false} MatchFirstThreeOctets(x: seq<nat>, y: seq<nat>)
    requires |x| == |y| == 4 && x[..3] == y[..3]
    ensures MatchParts(x, y, 8, 24)
  {
    assert x[0] == y[0] && x[1] == y[1] && x[2] == y[2] by { assert x[..3][0] == x[0] && x[..3][1] == x[1] && x[..3][2] == x[2]; }
    assert MatchParts(x[3..], y[3..], 8, 0);
    assert x[2..][1..] == x[3..] && y[2..][1..] == y[3..];
    assert MatchParts(x[2..], y[2..], 8, 8);
    assert x[1..][1..] == x[2..] && y[1..][1..] == y[2..];
    assert MatchParts(x[1..], y[1..], 8, 16);
  }

  /** The documentation blocks of RFC 5737 section 3 (192.0.2/24, 198.51.100/24, 203.0.113/24)
      are reserved, so not global unicast. */
  lemma DocumentationBlocksArePrivate(a: Address)
    requires a.IPv4? && a.Valid()
    requires (a.octets[0] == 192 && a.octets[1] == 0 && a.octets[2] == 2)
      || (a.octets[0] == 198 && a.octets[1] == 51 && a.octets[2] == 100)
      || (a.octets[0] == 203 && a.octets[1] == 0 && a.octets[2] == 113)
    ensures RangeOf(a) != Unicast
  {
    var t := SpecialRanges();
    var o := a.octets;
    if o[0] == 192 {
      MatchFirstThreeOctets(o, t[10].net.octets);
      assert InSpecial(a, t[10]);
      InSpecialIsPrivate(a, 10);
    } else if o[0] == 198 {
      MatchFirstThreeOctets(o, t[12].net.octets);
      assert InSpecial(a, t[12]);
      InSpecialIsPrivate(a, 12);
    } else {
      MatchFirstThreeOctets(o, t[13].net.octets);
      assert InSpecial(a, t[13]);
      InSpecialIsPrivate(a, 13);
    }
  }
}
