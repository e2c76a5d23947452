/** The matcher's documented examples, proved on the model: exact and prefix matching in both
    families, family separation, rejection of malformed text, and the private/public split. */
module IpMatchCases {
  import opened Wrappers
  import opened Text
  import opened IpMatch

  // ---------------------------------------------------------------- text helpers

  /** A non-empty run of groups written in hexadecimal and joined with ':' reads back. */
  lemma GroupListText(gs: seq<nat>)
    requires forall i :: 0 <= i < |gs| ==> gs[i] < 65536
    ensures ParseGroupList(Join(FormatParts(gs, 16), ":")) == Some(gs)
  {
    if gs != [] {
      var pieces := FormatParts(gs, 16);
      JoinNoDoubleColon(pieces);
      SplitJoin(pieces, ':');
      forall i | 0 <= i < |gs| ensures ParseGroup(FormatNat(gs[i], 16)) == Some(gs[i]) {
        ParseFormat(gs[i], 16);
        FormatLength16(gs[i]);
      }
      ParseAllFormat(gs, 16, ParseGroup);
    }
  }

  /** The last character of groups joined with ':' is not ':'. */
  lemma {:induction false} JoinEndsInGroup(parts: seq<string>)
    requires |parts| >= 1
    requires forall i :: 0 <= i < |parts| ==> parts[i] != [] && ':' !in parts[i]
    ensures var j := Join(parts, ":"); j != [] && j[|j| - 1] != ':'
  {
    if |parts| > 1 {
      JoinEndsInGroup(parts[1..]);
      var t := Join(parts[1..], ":");
      assert Join(parts, ":") == parts[0] + ":" + t;
    } else {
      assert parts[0][|parts[0]| - 1] in parts[0];
    }
  }

  /** The first "::" of `lt + "::" + rt` is the one after `lt` when `lt` holds none and does
      not end in ':'. */
  lemma {:induction false} DoubleColonAfter(lt: string, rt: string)
    requires FindDoubleColon(lt).None? && (lt == [] || lt[|lt| - 1] != ':')
    ensures FindDoubleColon(lt + "::" + rt) == Some(|lt|)
  {
    var s := lt + "::" + rt;
    if lt != [] {
      var rest := lt[1..];
      assert s[1..] == rest + "::" + rt;
      if rest != [] {
        assert !(lt[0] == ':' && lt[1] == ':');
        assert rest[|rest| - 1] == lt[|lt| - 1];
      }
      DoubleColonAfter(rest, rt);
    }
  }

  /** The address parser on text split at its first "::". */
  lemma DoubleColonSplit(s: string, i: nat, l: seq<nat>, r: seq<nat>)
    requires FindDoubleColon(s) == Some(i)
    requires ParseGroupList(s[..i]) == Some(l) && ParseGroupList(s[i + 2..]) == Some(r)
    requires |l| + |r| <= 7
    ensures ParseAddress(s) == Some(IPv6(l + Zeros(8 - |l| - |r|) + r))
  {
    SixAroundDoubleColon(s, i, l, r);
    SixFirst(s);
  }

  lemma SixAroundDoubleColon(s: string, i: nat, l: seq<nat>, r: seq<nat>)
    requires FindDoubleColon(s) == Some(i)
    requires ParseGroupList(s[..i]) == Some(l) && ParseGroupList(s[i + 2..]) == Some(r)
    requires |l| + |r| <= 7
    ensures ParseIPv6(s) == Some(IPv6(l + Zeros(8 - |l| - |r|) + r))
  {
    assert Fill(l, r) == l + Zeros(8 - |l| - |r|) + r;
  }

  /** Text that reads as IPv6 is not tried as IPv4. */
  lemma SixFirst(s: string)
    requires ParseIPv6(s).Some?
    ensures ParseAddress(s) == ParseIPv6(s)
  {
  }

  /** Two runs of hexadecimal groups around one "::". */
  function Compressed(l: seq<nat>, r: seq<nat>): string
  {
    Join(FormatParts(l, 16), ":") + "::" + Join(FormatParts(r, 16), ":")
  }

  /** Compressed text parses to the two runs with zero groups between them. */
  lemma CompressedText(l: seq<nat>, r: seq<nat>)
    requires forall i :: 0 <= i < |l| ==> l[i] < 65536
    requires forall i :: 0 <= i < |r| ==> r[i] < 65536
    requires |l| + |r| <= 7
    ensures ParseAddress(Compressed(l, r)) == Some(IPv6(l + Zeros(8 - |l| - |r|) + r))
  {
    var lt, rt := Join(FormatParts(l, 16), ":"), Join(FormatParts(r, 16), ":");
    var s := Compressed(l, r);
    if l != [] {
      JoinNoDoubleColon(FormatParts(l, 16));
      JoinEndsInGroup(FormatParts(l, 16));
    }
    DoubleColonAfter(lt, rt);
    assert s[..|lt|] == lt;
    assert s[|lt| + 2..] == rt;
    GroupListText(l);
    GroupListText(r);
    DoubleColonSplit(s, |lt|, l, r);
  }

  /** A CIDR text built from an address's canonical text and a valid length parses to them. */
  lemma CidrText(a: Address, t: string, p: nat)
    requires a.Valid() && ParseAddress(t) == Some(a) && p <= a.Width()
    ensures ParseCidr(t + "/" + FormatNat(p, 10)) == Some(Cidr(a, p))
  {
    var d := FormatNat(p, 10);
    var s := t + "/" + d;
    LastSlash(t, d);
    assert s[..|t|] == t && s[|t| + 1..] == d;
    ParseFormat(p, 10);
  }

  /** For a CIDR entry of the request's family the answer is the prefix test. */
  lemma CidrEntryMatch(requestIp: string, entry: string)
    requires ParseAddress(requestIp).Some? && ParseCidr(entry).Some?
    requires ParseAddress(requestIp).value.Kind() == ParseCidr(entry).value.net.Kind()
    ensures var a, c := ParseAddress(requestIp).value, ParseCidr(entry).value;
      IpMatches(requestIp, entry) == InRange(a, c.net, c.bits)
  {
  }

  /** Text without ':' is never an IPv6 address. */
  lemma NotIPv6(s: string)
    requires ':' !in s
    ensures ParseIPv6(s).None?
  {
    SplitWithout(s, ':');
    assert FindDoubleColon(s).None?;
  }

  // ---------------------------------------------------------------- parsing the examples

  // Each `Text...` lemma below is a plain computation on literals, kept apart from the
  // parsing argument that uses it.

  lemma TextV4a()
    ensures ToText(IPv4([192, 168, 1, 1])) == "192.168.1.1"
  {
  }

  lemma ParseV4a()
    ensures ParseAddress("192.168.1.1") == Some(IPv4([192, 168, 1, 1]))
  {
    TextV4a();
    TextRoundTrip(IPv4([192, 168, 1, 1]));
  }

  lemma TextV4b()
    ensures ToText(IPv4([192, 168, 1, 2])) == "192.168.1.2"
  {
  }

  lemma ParseV4b()
    ensures ParseAddress("192.168.1.2") == Some(IPv4([192, 168, 1, 2]))
  {
    TextV4b();
    TextRoundTrip(IPv4([192, 168, 1, 2]));
  }

  lemma TextV4c()
    ensures ToText(IPv4([192, 168, 1, 10])) == "192.168.1.10"
  {
  }

  lemma ParseV4c()
    ensures ParseAddress("192.168.1.10") == Some(IPv4([192, 168, 1, 10]))
  {
    TextV4c();
    TextRoundTrip(IPv4([192, 168, 1, 10]));
  }

  lemma TextV4d()
    ensures ToText(IPv4([192, 168, 2, 10])) == "192.168.2.10"
  {
  }

  lemma ParseV4d()
    ensures ParseAddress("192.168.2.10") == Some(IPv4([192, 168, 2, 10]))
  {
    TextV4d();
    TextRoundTrip(IPv4([192, 168, 2, 10]));
  }

  lemma TextV4Net24()
    ensures ToText(IPv4([192, 168, 1, 0])) == "192.168.1.0"
  {
  }

  lemma ParseV4Net24()
    ensures ParseAddress("192.168.1.0") == Some(IPv4([192, 168, 1, 0]))
  {
    TextV4Net24();
    TextRoundTrip(IPv4([192, 168, 1, 0]));
  }

  lemma TextV4Ten()
    ensures ToText(IPv4([10, 0, 0, 1])) == "10.0.0.1"
  {
  }

  lemma ParseV4Ten()
    ensures ParseAddress("10.0.0.1") == Some(IPv4([10, 0, 0, 1]))
  {
    TextV4Ten();
    TextRoundTrip(IPv4([10, 0, 0, 1]));
  }

  lemma TextV4Net8()
    ensures ToText(IPv4([10, 0, 0, 0])) == "10.0.0.0"
  {
  }

  lemma ParseV4Net8()
    ensures ParseAddress("10.0.0.0") == Some(IPv4([10, 0, 0, 0]))
  {
    TextV4Net8();
    TextRoundTrip(IPv4([10, 0, 0, 0]));
  }

  lemma TextV4OneSevenTwo()
    ensures ToText(IPv4([172, 16, 0, 1])) == "172.16.0.1"
  {
  }

  lemma ParseV4OneSevenTwo()
    ensures ParseAddress("172.16.0.1") == Some(IPv4([172, 16, 0, 1]))
  {
    TextV4OneSevenTwo();
    TextRoundTrip(IPv4([172, 16, 0, 1]));
  }

  lemma TextV4Loop()
    ensures ToText(IPv4([127, 0, 0, 1])) == "127.0.0.1"
  {
  }

  lemma ParseV4Loop()
    ensures ParseAddress("127.0.0.1") == Some(IPv4([127, 0, 0, 1]))
  {
    TextV4Loop();
    TextRoundTrip(IPv4([127, 0, 0, 1]));
  }

  lemma TextV4Eight()
    ensures ToText(IPv4([8, 8, 8, 8])) == "8.8.8.8"
  {
  }

  lemma ParseV4Eight()
    ensures ParseAddress("8.8.8.8") == Some(IPv4([8, 8, 8, 8]))
  {
    TextV4Eight();
    TextRoundTrip(IPv4([8, 8, 8, 8]));
  }

  lemma TextV4One()
    ensures ToText(IPv4([1, 1, 1, 1])) == "1.1.1.1"
  {
  }

  lemma ParseV4One()
    ensures ParseAddress("1.1.1.1") == Some(IPv4([1, 1, 1, 1]))
  {
    TextV4One();
    TextRoundTrip(IPv4([1, 1, 1, 1]));
  }

  /** Two groups before the "::" and at most one after it. */
  lemma CompressedShape(x: nat, y: nat, r: seq<nat>)
    requires |r| <= 1
    ensures Compressed([x, y], r) ==
      FormatNat(x, 16) + ":" + FormatNat(y, 16) + "::" + (if r == [] then "" else FormatNat(r[0], 16))
  {
    var ps := FormatParts([x, y], 16);
    assert ps == [FormatNat(x, 16), FormatNat(y, 16)];
    assert Join(ps, ":") == FormatNat(x, 16) + ":" + Join(ps[1..], ":");
  }

  lemma Hex2001()
    ensures FormatNat(0x2001, 16) == "2001"
  {
    assert FormatNat(0x200, 16) == "200";
  }

  lemma HexDb8()
    ensures FormatNat(0xdb8, 16) == "db8"
  {
    assert FormatNat(0xdb, 16) == "db";
  }

  lemma HexDb9()
    ensures FormatNat(0xdb9, 16) == "db9"
  {
    assert FormatNat(0xdb, 16) == "db";
  }

  lemma Hex10()
    ensures FormatNat(0x10, 16) == "10"
  {
  }

  lemma TextV6a()
    ensures Compressed([0x2001, 0xdb8], [1]) == "2001:db8::1"
    ensures [0x2001, 0xdb8] + Zeros(5) + [1] == [0x2001, 0xdb8, 0, 0, 0, 0, 0, 1]
  {
    CompressedShape(0x2001, 0xdb8, [1]);
    Hex2001();
    HexDb8();
    assert FormatNat(1, 16) == "1";
    assert Zeros(5) == [0, 0, 0, 0, 0];
  }

  lemma ParseV6a()
    ensures ParseAddress("2001:db8::1") == Some(IPv6([0x2001, 0xdb8, 0, 0, 0, 0, 0, 1]))
  {
    var l: seq<nat>, r: seq<nat> := [0x2001, 0xdb8], [1];
    TextV6a();
    CompressedText(l, r);
    assert Compressed(l, r) == "2001:db8::1";
  }

  lemma TextV6b()
    ensures Compressed([0x2001, 0xdb8], [2]) == "2001:db8::2"
    ensures [0x2001, 0xdb8] + Zeros(5) + [2] == [0x2001, 0xdb8, 0, 0, 0, 0, 0, 2]
  {
    CompressedShape(0x2001, 0xdb8, [2]);
    Hex2001();
    HexDb8();
    assert FormatNat(2, 16) == "2";
    assert Zeros(5) == [0, 0, 0, 0, 0];
  }

  lemma ParseV6b()
    ensures ParseAddress("2001:db8::2") == Some(IPv6([0x2001, 0xdb8, 0, 0, 0, 0, 0, 2]))
  {
    var l: seq<nat>, r: seq<nat> := [0x2001, 0xdb8], [2];
    TextV6b();
    CompressedText(l, r);
    assert Compressed(l, r) == "2001:db8::2";
  }

  lemma TextV6c()
    ensures Compressed([0x2001, 0xdb8], [0x10]) == "2001:db8::10"
    ensures [0x2001, 0xdb8] + Zeros(5) + [0x10] == [0x2001, 0xdb8, 0, 0, 0, 0, 0, 0x10]
  {
    CompressedShape(0x2001, 0xdb8, [0x10]);
    Hex2001();
    HexDb8();
    Hex10();
    assert Zeros(5) == [0, 0, 0, 0, 0];
  }

  lemma ParseV6c()
    ensures ParseAddress("2001:db8::10") == Some(IPv6([0x2001, 0xdb8, 0, 0, 0, 0, 0, 0x10]))
  {
    var l: seq<nat>, r: seq<nat> := [0x2001, 0xdb8], [0x10];
    TextV6c();
    CompressedText(l, r);
    assert Compressed(l, r) == "2001:db8::10";
  }

  lemma TextV6d()
    ensures Compressed([0x2001, 0xdb9], [0x10]) == "2001:db9::10"
    ensures [0x2001, 0xdb9] + Zeros(5) + [0x10] == [0x2001, 0xdb9, 0, 0, 0, 0, 0, 0x10]
  {
    CompressedShape(0x2001, 0xdb9, [0x10]);
    Hex2001();
    HexDb9();
    Hex10();
    assert Zeros(5) == [0, 0, 0, 0, 0];
  }

  lemma ParseV6d()
    ensures ParseAddress("2001:db9::10") == Some(IPv6([0x2001, 0xdb9, 0, 0, 0, 0, 0, 0x10]))
  {
    var l: seq<nat>, r: seq<nat> := [0x2001, 0xdb9], [0x10];
    TextV6d();
    CompressedText(l, r);
    assert Compressed(l, r) == "2001:db9::10";
  }

  lemma TextV6Net()
    ensures Compressed([0x2001, 0xdb8], []) == "2001:db8::"
    ensures [0x2001, 0xdb8] + Zeros(6) + [] == [0x2001, 0xdb8, 0, 0, 0, 0, 0, 0]
  {
    CompressedShape(0x2001, 0xdb8, []);
    Hex2001();
    HexDb8();
    assert Zeros(6) == [0, 0, 0, 0, 0, 0];
  }

  lemma ParseV6Net()
    ensures ParseAddress("2001:db8::") == Some(IPv6([0x2001, 0xdb8, 0, 0, 0, 0, 0, 0]))
  {
    var l: seq<nat>, r: seq<nat> := [0x2001, 0xdb8], [];
    TextV6Net();
    CompressedText(l, r);
    assert Compressed(l, r) == "2001:db8::";
    assert l + Zeros(8 - |l| - |r|) + r == [0x2001, 0xdb8] + Zeros(6) + [];
  }

  lemma TextV6Loop()
    ensures Compressed([], [1]) == "::1"
    ensures [] + Zeros(7) + [1] == [0, 0, 0, 0, 0, 0, 0, 1]
  {
    assert Zeros(7) == [0, 0, 0, 0, 0, 0, 0];
  }

  lemma ParseV6Loop()
    ensures ParseAddress("::1") == Some(IPv6([0, 0, 0, 0, 0, 0, 0, 1]))
  {
    var l: seq<nat>, r: seq<nat> := [], [1];
    TextV6Loop();
    CompressedText(l, r);
    assert Compressed(l, r) == "::1";
  }

  lemma TextV6Zero()
    ensures Compressed([], []) == "::"
    ensures [] + Zeros(8) + [] == [0, 0, 0, 0, 0, 0, 0, 0]
  {
    assert Zeros(8) == [0, 0, 0, 0, 0, 0, 0, 0];
  }

  lemma ParseV6Zero()
    ensures ParseAddress("::") == Some(IPv6([0, 0, 0, 0, 0, 0, 0, 0]))
  {
    var l: seq<nat>, r: seq<nat> := [], [];
    TextV6Zero();
    CompressedText(l, r);
    assert Compressed(l, r) == "::";
  }

  // ---------------------------------------------------------------- ipMatches examples

  lemma ExactV4Match()
    ensures IpMatches("192.168.1.1", "192.168.1.1")
  {
    ParseV4a();
    ExactMatchIsEquality("192.168.1.1", "192.168.1.1");
  }

  lemma ExactV4Mismatch()
    ensures !IpMatches("192.168.1.1", "192.168.1.2")
  {
    ParseV4a();
    ParseV4b();
    ExactMatchIsEquality("192.168.1.1", "192.168.1.2");
  }

  lemma TextCidrV4()
    ensures "192.168.1.0" + "/" + FormatNat(24, 10) == "192.168.1.0/24"
  {
  }

  lemma CidrV4Entry()
    ensures ParseCidr("192.168.1.0/24") == Some(Cidr(IPv4([192, 168, 1, 0]), 24))
  {
    ParseV4Net24();
    TextCidrV4();
    CidrText(IPv4([192, 168, 1, 0]), "192.168.1.0", 24);
  }

  lemma PrefixV4()
    ensures InRange(IPv4([192, 168, 1, 10]), IPv4([192, 168, 1, 0]), 24)
    ensures !InRange(IPv4([192, 168, 2, 10]), IPv4([192, 168, 1, 0]), 24)
  {
  }

  lemma CidrV4Match()
    ensures IpMatches("192.168.1.10", "192.168.1.0/24")
  {
    ParseV4c();
    CidrV4Entry();
    PrefixV4();
    CidrEntryMatch("192.168.1.10", "192.168.1.0/24");
  }

  lemma CidrV4Mismatch()
    ensures !IpMatches("192.168.2.10", "192.168.1.0/24")
  {
    ParseV4d();
    CidrV4Entry();
    PrefixV4();
    CidrEntryMatch("192.168.2.10", "192.168.1.0/24");
  }

  lemma ExactV6Match()
    ensures IpMatches("2001:db8::1", "2001:db8::1")
  {
    ParseV6a();
    ExactMatchIsEquality("2001:db8::1", "2001:db8::1");
  }

  lemma ExactV6Mismatch()
    ensures !IpMatches("2001:db8::1", "2001:db8::2")
  {
    ParseV6a();
    ParseV6b();
    ExactMatchIsEquality("2001:db8::1", "2001:db8::2");
  }

  lemma TextCidrV6()
    ensures "2001:db8::" + "/" + FormatNat(32, 10) == "2001:db8::/32"
  {
  }

  lemma CidrV6Entry()
    ensures ParseCidr("2001:db8::/32") == Some(Cidr(IPv6([0x2001, 0xdb8, 0, 0, 0, 0, 0, 0]), 32))
  {
    ParseV6Net();
    TextCidrV6();
    CidrText(IPv6([0x2001, 0xdb8, 0, 0, 0, 0, 0, 0]), "2001:db8::", 32);
  }

  lemma PrefixV6()
    ensures InRange(IPv6([0x2001, 0xdb8, 0, 0, 0, 0, 0, 0x10]), IPv6([0x2001, 0xdb8, 0, 0, 0, 0, 0, 0]), 32)
    ensures !InRange(IPv6([0x2001, 0xdb9, 0, 0, 0, 0, 0, 0x10]), IPv6([0x2001, 0xdb8, 0, 0, 0, 0, 0, 0]), 32)
  {
  }

  lemma CidrV6Match()
    ensures IpMatches("2001:db8::10", "2001:db8::/32")
  {
    ParseV6c();
    CidrV6Entry();
    PrefixV6();
    CidrEntryMatch("2001:db8::10", "2001:db8::/32");
  }

  lemma CidrV6Mismatch()
    ensures !IpMatches("2001:db9::10", "2001:db8::/32")
  {
    ParseV6d();
    CidrV6Entry();
    PrefixV6();
    CidrEntryMatch("2001:db9::10", "2001:db8::/32");
  }

  lemma FamilyExamples()
    ensures !IpMatches("192.168.1.1", "2001:db8::1")
    ensures !IpMatches("2001:db8::1", "192.168.1.1")
  {
    ParseV4a();
    ParseV6a();
  }

  lemma ParseInvalid()
    ensures ParseAddress("invalid").None?
  {
    WordNotAddress("invalid");
  }

  /** Text with neither ':' nor '.' is no address. */
  lemma WordNotAddress(s: string)
    requires ':' !in s && '.' !in s
    ensures ParseAddress(s).None?
  {
    NotIPv6(s);
    SplitWithout(s, '.');
  }

  lemma InvalidExamples()
    ensures !IpMatches("invalid", "192.168.1.1")
    ensures !IpMatches("192.168.1.1", "invalid")
  {
    ParseInvalid();
  }

  // ---------------------------------------------------------------- isValidIpOrCidr examples

  lemma ValidAddressExamples()
    ensures IsValidIpOrCidr("192.168.1.1") && IsValidIpOrCidr("10.0.0.1")
    ensures IsValidIpOrCidr("2001:db8::1") && IsValidIpOrCidr("::1")
  {
    ParseV4a();
    ParseV4Ten();
    ParseV6a();
    ParseV6Loop();
  }

  lemma TextValidCidrs()
    ensures "10.0.0.0" + "/" + FormatNat(8, 10) == "10.0.0.0/8"
    ensures "::" + "/" + FormatNat(0, 10) == "::/0"
  {
  }

  lemma ValidV4CidrExamples()
    ensures IsValidIpOrCidr("192.168.1.0/24") && IsValidIpOrCidr("10.0.0.0/8")
  {
    CidrV4Entry();
    ParseV4Net8();
    TextValidCidrs();
    CidrText(IPv4([10, 0, 0, 0]), "10.0.0.0", 8);
  }

  lemma ValidV6CidrExamples()
    ensures IsValidIpOrCidr("2001:db8::/32") && IsValidIpOrCidr("::/0")
  {
    CidrV6Entry();
    ParseV6Zero();
    TextValidCidrs();
    CidrText(IPv6([0, 0, 0, 0, 0, 0, 0, 0]), "::", 0);
  }

  lemma TextOverlong()
    ensures "192.168.1.0" + "/" + FormatNat(33, 10) == "192.168.1.0/33"
    ensures "2001:db8::" + "/" + FormatNat(129, 10) == "2001:db8::/129"
  {
  }

  /** A prefix longer than the family's width is rejected. */
  lemma OverlongV4Prefix()
    ensures !IsValidIpOrCidr("192.168.1.0/33")
  {
    ParseV4Net24();
    TextOverlong();
    ParseFormat(33, 10);
    CidrValidity("192.168.1.0", FormatNat(33, 10));
  }

  lemma OverlongV6Prefix()
    ensures !IsValidIpOrCidr("2001:db8::/129")
  {
    ParseV6Net();
    TextOverlong();
    ParseFormat(129, 10);
    CidrValidity("2001:db8::", FormatNat(129, 10));
  }

  /** Dot-separated pieces that are not four octets are no address of either family. */
  lemma QuadRejected(pieces: seq<string>, s: string)
    requires |pieces| >= 1 && s == Join(pieces, ".")
    requires forall i :: 0 <= i < |pieces| ==> '.' !in pieces[i] && ':' !in pieces[i] && '/' !in pieces[i]
    requires |pieces| != 4 || ParseOctet(pieces[0]).None?
    ensures ParseAddress(s).None? && !IsValidIpOrCidr(s)
  {
    JoinAvoids(pieces, '.', ':');
    JoinAvoids(pieces, '.', '/');
    NotIPv6(s);
    SplitJoin(pieces, '.');
  }

  lemma TextQuads()
    ensures Join(["256", "1", "1", "1"], ".") == "256.1.1.1"
    ensures Join(["192", "168", "1"], ".") == "192.168.1"
    ensures Join(["invalid"], ".") == "invalid" && Join([""], ".") == ""
    ensures FormatNat(256, 10) == "256"
  {
  }

  /** An octet above 255 is rejected. */
  lemma OctetTooLarge()
    ensures !IsValidIpOrCidr("256.1.1.1")
  {
    TextQuads();
    ParseFormat(256, 10);
    QuadRejected(["256", "1", "1", "1"], "256.1.1.1");
  }

  lemma NonHexParse()
    ensures ParseAddress("gggg" + "::" + "1").None?
  {
    var s := "gggg" + "::" + "1";
    DoubleColonAfter("gggg", "1");
    assert s[..4] == "gggg";
    SplitWithout("gggg", ':');
    assert DigitValue('g', 16).None?;
    assert ParseGroup("gggg").None?;
    assert ParseIPv6(s).None?;
    SplitWithout(s, '.');
  }

  /** A group that is not hexadecimal is rejected. */
  lemma NonHexGroup()
    ensures !IsValidIpOrCidr("gggg::1")
  {
    NonHexParse();
    assert "gggg" + "::" + "1" == "gggg::1";
  }

  /** The empty text, a word and a three-part quad are rejected. */
  lemma EmptyRejected()
    ensures !IsValidIpOrCidr("")
  {
    TextQuads();
    QuadRejected([""], "");
  }

  lemma WordRejected()
    ensures !IsValidIpOrCidr("invalid")
  {
    TextQuads();
    QuadRejected(["invalid"], "invalid");
  }

  lemma ThreePartsRejected()
    ensures !IsValidIpOrCidr("192.168.1")
  {
    TextQuads();
    QuadRejected(["192", "168", "1"], "192.168.1");
  }

  // ---------------------------------------------------------------- isPrivateIp examples

  lemma PrivateExamples()
    ensures IsPrivateIp("192.168.1.1") && IsPrivateIp("10.0.0.1")
    ensures IsPrivateIp("172.16.0.1") && IsPrivateIp("127.0.0.1")
  {
    ParseV4a();
    PrivateAt("192.168.1.1", IPv4([192, 168, 1, 1]));
    ParseV4Ten();
    PrivateAt("10.0.0.1", IPv4([10, 0, 0, 1]));
    ParseV4OneSevenTwo();
    PrivateAt("172.16.0.1", IPv4([172, 16, 0, 1]));
    ParseV4Loop();
    PrivateAt("127.0.0.1", IPv4([127, 0, 0, 1]));
  }

  /** Text that reads as an address in one of the private blocks is private. */
  lemma PrivateAt(t: string, a: Address)
    requires a == IPv4([192, 168, 1, 1]) || a == IPv4([10, 0, 0, 1])
          || a == IPv4([172, 16, 0, 1]) || a == IPv4([127, 0, 0, 1])
    requires ParseAddress(t) == Some(a)
    ensures IsPrivateIp(t)
  {
    PrivateBlocksArePrivate(a);
  }

  /** An IPv4 address outside every listed IPv4 block is global unicast. */
  lemma OutsideAllIsUnicast(a: Address)
    requires a.IPv4? && a.Valid()
    requires forall i :: 0 <= i < 15 ==> !InSpecial(a, SpecialRanges()[i])
    ensures RangeOf(a) == Unicast
  {
    var t := SpecialRanges();
    FirstRangeFindsAny(a, t);
    forall i | 15 <= i < |t| ensures !InSpecial(a, t[i]) {
      assert t[i].net.IPv6?;
    }
  }

  lemma OutsideEight()
    ensures forall i :: 0 <= i < 15 ==> !InSpecial(IPv4([8, 8, 8, 8]), SpecialRanges()[i])
  {
  }

  lemma OutsideOne()
    ensures forall i :: 0 <= i < 15 ==> !InSpecial(IPv4([1, 1, 1, 1]), SpecialRanges()[i])
  {
  }

  lemma PublicEight()
    ensures !IsPrivateIp("8.8.8.8")
  {
    ParseV4Eight();
    OutsideEight();
    OutsideAllIsUnicast(IPv4([8, 8, 8, 8]));
  }

  lemma PublicOne()
    ensures !IsPrivateIp("1.1.1.1")
  {
    ParseV4One();
    OutsideOne();
    OutsideAllIsUnicast(IPv4([1, 1, 1, 1]));
  }

  lemma InvalidIsNotPrivate()
    ensures !IsPrivateIp("invalid")
  {
    ParseInvalid();
  }
}
