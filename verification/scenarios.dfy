/**
 * Concrete requests and the destination strings the server dials for them.
 * Each step is worked out in a small lemma of its own.
 */
module Scenarios {
  import opened Wire
  import opened Text
  import opened Address
  import opened Protocol

  /** The request bytes of `d`, parsed back through the round trip. */
  lemma ParsesTo(s: seq<byte>, d: Dest)
    requires d.Valid() && s == EncodeRequest(d)
    ensures RequestText(s) == Ok(DestText(d), |s|)
  {
    RequestRoundTrip(d, []);
    assert s + [] == s;
  }

  /** The parts of an encoded request, for each address type. */
  lemma Layout(d: Dest)
    requires d.Valid()
    ensures d.host.Ipv4? ==> EncodeRequest(d) == [5, 1, 0] + ([1] + d.host.octets) + [d.port / 0x100, d.port % 0x100]
    ensures d.host.DomainName? ==> EncodeRequest(d) == [5, 1, 0] + ([3, |d.host.name|] + d.host.name) + [d.port / 0x100, d.port % 0x100]
    ensures d.host.Ipv6? ==> EncodeRequest(d) == [5, 1, 0] + ([4] + SegmentBytes(d.host.segments)) + [d.port / 0x100, d.port % 0x100]
  {
  }

  // IPv4: 93.184.216.34 port 80

  lemma Ipv4Bytes(s: seq<byte>)
    requires s == [5, 1, 0, 1, 93, 184, 216, 34, 0, 80]
    ensures [5, 1, 0] + ([1] + [93, 184, 216, 34]) + [0, 80] == s
  {
  }

  lemma Ipv4HostText()
    ensures Ipv4Text([93, 184, 216, 34]) == "93.184.216.34"
  {
    assert Decimal(93) == "93" && Decimal(184) == "184";
    assert Decimal(216) == "216" && Decimal(34) == "34";
  }

  lemma Ipv4DestText()
    ensures DestText(Dest(Ipv4([93, 184, 216, 34]), 80)) == "93.184.216.34:80"
  {
    Ipv4HostText();
    assert Decimal(80) == "80";
  }

  /** An IPv4 CONNECT to 93.184.216.34 port 80. */
  lemma Ipv4Request(s: seq<byte>)
    requires s == [5, 1, 0, 1, 93, 184, 216, 34, 0, 80]
    ensures RequestText(s) == Ok("93.184.216.34:80", 10)
  {
    var d := Dest(Ipv4([93, 184, 216, 34]), 80);
    Layout(d);
    Ipv4Bytes(s);
    ParsesTo(s, d);
    Ipv4DestText();
  }

  // Domain: example.com port 80

  lemma DomainBytes(name: seq<byte>, s: seq<byte>)
    requires name == [101, 120, 97, 109, 112, 108, 101, 46, 99, 111, 109]
    requires s == [5, 1, 0, 3, 11, 101, 120, 97, 109, 112, 108, 101, 46, 99, 111, 109, 0, 80]
    ensures [5, 1, 0] + ([3, 11] + name) + [0, 80] == s
  {
    var e := [5, 1, 0] + ([3, 11] + name) + [0, 80];
    assert |e| == |s| == 18;
    forall i | 0 <= i < 18
      ensures e[i] == s[i]
    {
      if 5 <= i < 16 {
        assert e[i] == name[i - 5];
      }
    }
  }

  lemma DomainDestText(name: seq<byte>)
    requires name == [101, 120, 97, 109, 112, 108, 101, 46, 99, 111, 109]
    ensures DestText(Dest(DomainName(name), 80)) == "example.com:80"
  {
    assert DomainText(name) == "example.com";
    assert Decimal(80) == "80";
  }

  /** A domain CONNECT to example.com port 80. */
  lemma DomainRequest(s: seq<byte>)
    requires s == [5, 1, 0, 3, 11, 101, 120, 97, 109, 112, 108, 101, 46, 99, 111, 109, 0, 80]
    ensures RequestText(s) == Ok("example.com:80", 18)
  {
    var name: seq<byte> := [101, 120, 97, 109, 112, 108, 101, 46, 99, 111, 109];
    var d := Dest(DomainName(name), 80);
    Layout(d);
    DomainBytes(name, s);
    ParsesTo(s, d);
    DomainDestText(name);
  }

  // IPv6: 2001:db8::1 port 443

  lemma DocumentationGroups(b: seq<byte>)
    requires b == [0x20, 0x01, 0x0d, 0xb8, 0, 0, 0, 0, 0, 0, 0, 0, 0, 0, 0, 1]
    ensures Segments(b) == [0x2001, 0x0db8, 0, 0, 0, 0, 0, 1]
  {
    var g := Segments(b);
    assert g[0] == 0x2001 && g[1] == 0x0db8 && g[2] == 0 && g[3] == 0;
    assert g[4] == 0 && g[5] == 0 && g[6] == 0 && g[7] == 1;
  }

  lemma Ipv6Bytes(b: seq<byte>, s: seq<byte>)
    requires b == [0x20, 0x01, 0x0d, 0xb8, 0, 0, 0, 0, 0, 0, 0, 0, 0, 0, 0, 1]
    requires s == [5, 1, 0, 4, 0x20, 0x01, 0x0d, 0xb8, 0, 0, 0, 0, 0, 0, 0, 0, 0, 0, 0, 1, 1, 0xbb]
    ensures [5, 1, 0] + ([4] + b) + [1, 0xbb] == s
  {
    var e := [5, 1, 0] + ([4] + b) + [1, 0xbb];
    assert |e| == |s| == 22;
    forall i | 0 <= i < 22
      ensures e[i] == s[i]
    {
      if 4 <= i < 20 {
        assert e[i] == b[i - 4];
      }
    }
  }

  lemma DocumentationRun(g: seq<u16>)
    requires g == [0x2001, 0x0db8, 0, 0, 0, 0, 0, 1]
    ensures LongestZeroRun(g) == (2, 5)
  {
    assert ZeroRunAt(g, 7) == 0;
    assert ZeroRunAt(g, 6) == 1;
    assert ZeroRunAt(g, 5) == 2;
    assert ZeroRunAt(g, 4) == 3;
    assert ZeroRunAt(g, 3) == 4;
    assert ZeroRunAt(g, 2) == 5;
    assert ZeroRunAt(g, 1) == 0;
    assert ZeroRunAt(g, 0) == 0;
    assert LongestFrom(g, 3, (2, 5)) == (2, 5);
    assert LongestFrom(g, 0, (0, 0)) == LongestFrom(g, 3, (2, 5));
  }

  lemma DocumentationHead(h: seq<u16>)
    requires h == [0x2001, 0x0db8]
    ensures Groups(h) == "2001:db8"
  {
    assert Hex(0x2001) == "2001" && Hex(0x0db8) == "db8";
    assert h[0] == 0x2001 && h[1..] == [0x0db8] && h[1..][1..] == [];
    assert ColonGroups(h[1..][1..]) == "";
    assert ColonGroups(h[1..]) == ":" + "db8" + "";
    assert Groups(h) == "2001" + (":" + "db8" + "");
  }

  lemma DocumentationTail(h: seq<u16>)
    requires h == [1]
    ensures Groups(h) == "1"
  {
    assert Hex(1) == "1";
    assert h[1..] == [];
  }

  /** 2001:db8::1 prints with its run of five zero groups compressed. */
  lemma Ipv6HostText(g: seq<u16>)
    requires g == [0x2001, 0x0db8, 0, 0, 0, 0, 0, 1]
    ensures Ipv6Text(g) == "2001:db8::1"
  {
    DocumentationRun(g);
    DocumentationHead(g[..2]);
    DocumentationTail(g[7..]);
    assert g[..6] != [0, 0, 0, 0, 0, 0xffff] by {
      assert g[..6][0] != 0;
    }
  }

  lemma Ipv6DestText(g: seq<u16>, port: u16)
    requires g == [0x2001, 0x0db8, 0, 0, 0, 0, 0, 1] && port == 443
    ensures DestText(Dest(Ipv6(g), port)) == "2001:db8::1:443"
  {
    Ipv6HostText(g);
    Decimal443();
    JoinIpv6("2001:db8::1", "443");
  }

  lemma JoinIpv6(host: string, port: string)
    requires host == "2001:db8::1" && port == "443"
    ensures host + ":" + port == "2001:db8::1:443"
  {
  }

  lemma Decimal443()
    ensures Decimal(443) == "443"
  {
    assert Decimal(4) == "4" && Decimal(44) == "44";
  }

  /** An IPv6 CONNECT to 2001:db8::1 port 443. */
  lemma Ipv6Request(s: seq<byte>)
    requires s == [5, 1, 0, 4, 0x20, 0x01, 0x0d, 0xb8, 0, 0, 0, 0, 0, 0, 0, 0, 0, 0, 0, 1, 1, 0xbb]
    ensures RequestText(s) == Ok("2001:db8::1:443", 22)
  {
    var b: seq<byte> := [0x20, 0x01, 0x0d, 0xb8, 0, 0, 0, 0, 0, 0, 0, 0, 0, 0, 0, 1];
    DocumentationGroups(b);
    var g := Segments(b);
    var d := Dest(Ipv6(g), 443);
    Layout(d);
    BytesOfSegments(b);
    Ipv6Bytes(b, s);
    ParsesTo(s, d);
    Ipv6DestText(g, 443);
  }
}
