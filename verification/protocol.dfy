/**
 * The SOCKS version 5 messages the server reads and writes (RFC 1928,
 * sections 3 to 6), specified as functions of the bytes the client sends:
 * how many bytes each message consumes, what it yields, and which error
 * ends the session. The methods of module Core are proved against these.
 */
module Protocol {
  import opened Wire
  import opened Address
  import opened Seqs

  /** Method-selection reply: VER = 5, METHOD = no authentication. */
  const GreetingReply: seq<byte> := [SocksVersion, MethodNoAuth]

  /**
   * Reply to a CONNECT (section 6 of RFC 1928): VER, REP = succeeded, RSV,
   * ATYP = IPv4, BND.ADDR = 0.0.0.0, BND.PORT = 0.
   */
  const ConnectReply: seq<byte> :=
    [SocksVersion, ReplySucceeded, Reserved, AtypIpv4, 0, 0, 0, 0, 0, 0]

  /**
   * The CONNECT reply is VER 5, REP succeeded and RSV, then BND.ADDR and
   * BND.PORT in the request's own address format: read with the request's
   * address parser they are 0.0.0.0 port 0, and they end the reply.
   */
  lemma ConnectReplyLayout()
    ensures ConnectReply[..3] == [SocksVersion, ReplySucceeded, Reserved]
    ensures ParseAddress(ConnectReply[3], ConnectReply[4..])
      == Ok(Dest(Ipv4([0, 0, 0, 0]), 0), |ConnectReply| - 4)
  {
    assert ConnectReply[4..][..4] == [0, 0, 0, 0];
  }

  // ---------------------------------------------------------------------
  // Method-selection greeting: VER, NMETHODS, METHODS

  /**
   * Reads VER, then NMETHODS = N, then exactly N method bytes, which are
   * the value. The offered methods are not inspected.
   */
  function Greeting(s: seq<byte>): (r: Outcome<seq<byte>>)
    ensures r.used <= |s|
    ensures r.Err? ==> r.error in {Truncated, ProtocolViolation(Version)}
    ensures r.Err? && r.error == Truncated ==> r.used == |s|
  {
    if |s| < 1 then Err(Truncated, |s|)
    else if s[0] != SocksVersion then Err(ProtocolViolation(Version), 1)
    else if |s| < 2 then Err(Truncated, |s|)
    else
      var count: nat := s[1];
      if |s| < 2 + count then Err(Truncated, |s|)
      else Ok(s[2..2 + count], 2 + count)
  }

  /** The greeting a client offering `methods` sends. */
  function EncodeGreeting(methods: seq<byte>): (m: seq<byte>)
    requires |methods| <= 0xff
    ensures |m| == 2 + |methods|
  {
    [SocksVersion, |methods|] + methods
  }

  /** A greeting whose first byte is not 5 is rejected after one byte. */
  lemma GreetingBadVersion(s: seq<byte>)
    ensures (Greeting(s) == Err(ProtocolViolation(Version), 1)) <==> (|s| >= 1 && s[0] != SocksVersion)
  {
  }

  /**
   * With VER = 5 and NMETHODS = N present, the greeting succeeds exactly
   * when N more bytes follow, and then consumes 2 + N bytes whatever they are.
   */
  lemma GreetingConsumes(s: seq<byte>)
    requires |s| >= 2 && s[0] == SocksVersion
    ensures Greeting(s).Ok? <==> |s| >= 2 + s[1] as int
    ensures Greeting(s).Ok? ==> Greeting(s) == Ok(s[2..2 + s[1] as int], 2 + s[1] as int)
  {
  }

  /** Parsing an encoded greeting gives back the offered methods. */
  lemma GreetingRoundTrip(methods: seq<byte>, rest: seq<byte>)
    requires |methods| <= 0xff
    ensures Greeting(EncodeGreeting(methods) + rest) == Ok(methods, 2 + |methods|)
  {
    var s := EncodeGreeting(methods) + rest;
    assert s[2..2 + |methods|] == methods;
  }

  /** Whatever a greeting accepts is the encoding of the methods it yields. */
  lemma GreetingAcceptsOnlyEncodings(s: seq<byte>)
    requires Greeting(s).Ok?
    ensures |Greeting(s).value| <= 0xff
    ensures s[..Greeting(s).used] == EncodeGreeting(Greeting(s).value)
  {
    var r := Greeting(s);
    assert s[..r.used] == [s[0], s[1]] + s[2..r.used];
  }

  /** A greeting cut short anywhere is a truncation, never a success. */
  lemma GreetingPrefixTruncated(methods: seq<byte>, k: nat)
    requires |methods| <= 0xff
    requires k < 2 + |methods|
    ensures Greeting(EncodeGreeting(methods)[..k]) == Err(Truncated, k)
  {
    var s := EncodeGreeting(methods)[..k];
    if k >= 1 {
      assert s[0] == SocksVersion;
    }
    if k >= 2 {
      assert s[1] == |methods|;
    }
  }

  // ---------------------------------------------------------------------
  // CONNECT request: VER, CMD, RSV, ATYP, DST.ADDR, DST.PORT

  /** Eight IPv6 groups from sixteen bytes, each group big-endian. */
  function Segments(b: seq<byte>): (g: seq<u16>)
    requires |b| == 16
    ensures |g| == 8
  {
    seq(8, i requires 0 <= i < 8 => Be16(b[2 * i], b[2 * i + 1]))
  }

  /** The sixteen bytes of eight IPv6 groups, each group big-endian. */
  function SegmentBytes(g: seq<u16>): (b: seq<byte>)
    requires |g| == 8
    ensures |b| == 16
  {
    seq(16, i requires 0 <= i < 16 =>
      if i % 2 == 0 then g[i / 2] / 0x100 else g[i / 2] % 0x100)
  }

  /**
   * Group i of an IPv6 address is what the source computes from the
   * 8-bit bytes `hi` = b[2i] and `lo` = b[2i + 1]:
   * `((hi as u16) << 8) | (lo as u16)`.
   */
  lemma SegmentsBigEndian(b: seq<byte>, i: nat, hi: bv8, lo: bv8)
    requires |b| == 16 && i < 8
    requires hi as int == b[2 * i] && lo as int == b[2 * i + 1]
    ensures Segments(b)[i] == ShiftOr(hi, lo) as int
  {
    ShiftOrIsBe16(hi, lo);
  }

  /** Ungrouping then grouping gives back the groups. */
  lemma SegmentsOfBytes(g: seq<u16>)
    requires |g| == 8
    ensures Segments(SegmentBytes(g)) == g
  {
    var b := SegmentBytes(g);
    forall i | 0 <= i < 8
      ensures Segments(b)[i] == g[i]
    {
      assert b[2 * i] == g[i] / 0x100 && b[2 * i + 1] == g[i] % 0x100;
      Be16Split(g[i]);
    }
  }

  /** Grouping then ungrouping gives back the bytes. */
  lemma BytesOfSegments(b: seq<byte>)
    requires |b| == 16
    ensures SegmentBytes(Segments(b)) == b
  {
    var g := Segments(b);
    forall i | 0 <= i < 16
      ensures SegmentBytes(g)[i] == b[i]
    {
      var k := i / 2;
      assert g[k] == Be16(b[2 * k], b[2 * k + 1]);
      assert i == 2 * k || i == 2 * k + 1;
    }
  }

  /**
   * `Ipv6Addr::to_ipv4_mapped`: the first ten bytes are zero and the next
   * two are `ff ff`.
   */
  predicate Ipv4Mapped(b: seq<byte>)
    requires |b| == 16
  {
    (forall k :: 0 <= k < 10 ==> b[k] == 0) && b[10] == 0xff && b[11] == 0xff
  }

  /** An address is IPv4-mapped in bytes exactly when its groups begin 0:0:0:0:0:ffff. */
  lemma MappedGroups(g: seq<u16>)
    requires |g| == 8
    ensures Ipv4Mapped(SegmentBytes(g)) <==> g[..6] == [0, 0, 0, 0, 0, 0xffff]
  {
    if Ipv4Mapped(SegmentBytes(g)) {
      MappedBytesGroups(g);
    }
    if g[..6] == [0, 0, 0, 0, 0, 0xffff] {
      MappedGroupsBytes(g);
    }
  }

  /** Mapped bytes give the groups 0:0:0:0:0:ffff. */
  lemma MappedBytesGroups(g: seq<u16>)
    requires |g| == 8 && Ipv4Mapped(SegmentBytes(g))
    ensures g[..6] == [0, 0, 0, 0, 0, 0xffff]
  {
    var b := SegmentBytes(g);
    forall k | 0 <= k < 5
      ensures g[k] == 0
    {
      GroupBytes(g, k);
      assert b[2 * k] == 0 && b[2 * k + 1] == 0;
    }
    GroupBytes(g, 5);
  }

  /** The groups 0:0:0:0:0:ffff give mapped bytes. */
  lemma MappedGroupsBytes(g: seq<u16>)
    requires |g| == 8 && g[..6] == [0, 0, 0, 0, 0, 0xffff]
    ensures Ipv4Mapped(SegmentBytes(g))
  {
    var b := SegmentBytes(g);
    forall k | 0 <= k < 10
      ensures b[k] == 0
    {
      var j := k / 2;
      assert g[j] == g[..6][j] == 0;
      GroupBytes(g, j);
      assert k == 2 * j || k == 2 * j + 1;
    }
    assert g[5] == g[..6][5];
    GroupBytes(g, 5);
  }

  /** The two bytes of group k: both zero exactly when the group is, both ff exactly when it is ffff. */
  lemma GroupBytes(g: seq<u16>, k: nat)
    requires |g| == 8 && k < 8
    ensures var b := SegmentBytes(g);
      && b[2 * k] == g[k] / 0x100 && b[2 * k + 1] == g[k] % 0x100
      && ((b[2 * k] == 0 && b[2 * k + 1] == 0) <==> g[k] == 0)
      && ((b[2 * k] == 0xff && b[2 * k + 1] == 0xff) <==> g[k] == 0xffff)
  {
    Be16Split(g[k]);
  }

  /**
   * The two forms of IPv6 text. An IPv4-mapped address prints as `::ffff:`
   * followed by the dotted text of its last four bytes, which reads back as
   * those bytes. Every other address prints as hexadecimal groups, possibly
   * with one `::`, that read back as the address.
   */
  lemma Ipv6TextForms(g: seq<u16>)
    requires |g| == 8
    ensures Ipv4Mapped(SegmentBytes(g)) ==>
      && Ipv6Text(g) == "::ffff:" + Ipv4Text(SegmentBytes(g)[12..])
      && Ipv4Read(Ipv6Text(g)[7..]) == SegmentBytes(g)[12..]
    ensures !Ipv4Mapped(SegmentBytes(g)) ==> Ipv6Read(Ipv6Text(g)) == g
  {
    MappedGroups(g);
    var b := SegmentBytes(g);
    if Ipv4Mapped(b) {
      var tail := b[12..];
      assert tail == [g[6] / 0x100, g[6] % 0x100, g[7] / 0x100, g[7] % 0x100];
      var text := "::ffff:" + Ipv4Text(tail);
      assert Ipv6Text(g) == text;
      assert text[7..] == Ipv4Text(tail);
      Ipv4TextRoundTrip(tail);
    } else {
      Ipv6TextRoundTrip(g);
    }
  }

  /**
   * Reads DST.ADDR for the address type `atyp` from `s`: four octets,
   * a length byte L and L name bytes, or sixteen bytes; any other type
   * is refused before any address byte is read.
   */
  function ParseHost(atyp: byte, s: seq<byte>): (r: Outcome<Host>)
    ensures r.used <= |s|
    ensures r.Ok? ==> r.value.Valid()
    ensures r.Err? ==> r.error in {Truncated, ProtocolViolation(AddressType)}
    ensures r.Err? && r.error == Truncated ==> r.used == |s|
  {
    if atyp == AtypIpv4 then
      if |s| < 4 then Err(Truncated, |s|) else Ok(Ipv4(s[..4]), 4)
    else if atyp == AtypDomain then
      if |s| < 1 then Err(Truncated, |s|)
      else
        var len: nat := s[0];
        if |s| < 1 + len then Err(Truncated, |s|)
        else Ok(DomainName(s[1..1 + len]), 1 + len)
    else if atyp == AtypIpv6 then
      if |s| < 16 then Err(Truncated, |s|) else Ok(Ipv6(Segments(s[..16])), 16)
    else Err(ProtocolViolation(AddressType), 0)
  }

  /**
   * Reads a CONNECT request: VER = 5, CMD = 1 and RSV = 0 are checked in
   * that order, then ATYP and DST.ADDR, then the big-endian DST.PORT.
   */
  function ParseRequest(s: seq<byte>): (r: Outcome<Dest>)
    ensures r.used <= |s|
    ensures r.Ok? ==> r.value.Valid()
    ensures r.Err? ==> r.error != ConnectError
    ensures r.Err? && r.error == Truncated ==> r.used == |s|
  {
    if |s| < 1 then Err(Truncated, |s|)
    else if s[0] != SocksVersion then Err(ProtocolViolation(Version), 1)
    else if |s| < 2 then Err(Truncated, |s|)
    else if s[1] != CmdConnect then Err(ProtocolViolation(Command), 2)
    else if |s| < 3 then Err(Truncated, |s|)
    else if s[2] != Reserved then Err(ProtocolViolation(ReservedByte), 3)
    else if |s| < 4 then Err(Truncated, |s|)
    else match ParseAddress(s[3], s[4..])
      case Err(e, n) => Err(e, 4 + n)
      case Ok(d, n) => Ok(d, 4 + n)
  }

  /** DST.ADDR for the address type `atyp`, then the big-endian DST.PORT. */
  function ParseAddress(atyp: byte, s: seq<byte>): (r: Outcome<Dest>)
    ensures r.used <= |s|
    ensures r.Ok? ==> r.value.Valid()
    ensures r.Err? ==> r.error in {Truncated, ProtocolViolation(AddressType)}
    ensures r.Err? && r.error == Truncated ==> r.used == |s|
  {
    match ParseHost(atyp, s)
    case Err(e, n) => Err(e, n)
    case Ok(h, n) =>
      if |s| < n + 2 then Err(Truncated, |s|)
      else Ok(Dest(h, Be16(s[n], s[n + 1])), n + 2)
  }

  /** The request parsed to its destination string. */
  function RequestText(s: seq<byte>): (r: Outcome<string>)
    ensures r.used == ParseRequest(s).used
    ensures r.Ok? <==> ParseRequest(s).Ok?
    ensures r.Err? ==> r.error == ParseRequest(s).error
  {
    match ParseRequest(s)
    case Ok(d, n) => Ok(DestText(d), n)
    case Err(e, n) => Err(e, n)
  }

  /**
   * DST.PORT is what the source computes from the two bytes after DST.ADDR,
   * `((hi as u16) << 8) | (lo as u16)`.
   */
  lemma PortShiftOr(atyp: byte, s: seq<byte>, h: Host, n: nat, hi: bv8, lo: bv8)
    requires ParseHost(atyp, s) == Ok(h, n) && n + 2 <= |s|
    requires hi as int == s[n] && lo as int == s[n + 1]
    ensures ParseAddress(atyp, s) == Ok(Dest(h, ShiftOr(hi, lo) as int), n + 2)
  {
    ShiftOrIsBe16(hi, lo);
  }

  /** ATYP followed by DST.ADDR. */
  function EncodeHost(h: Host): (b: seq<byte>)
    requires h.Valid()
  {
    match h
    case Ipv4(o) => [AtypIpv4] + o
    case DomainName(n) => [AtypDomain, |n|] + n
    case Ipv6(g) => [AtypIpv6] + SegmentBytes(g)
  }

  /** The CONNECT request a client sends for `d`. */
  function EncodeRequest(d: Dest): (b: seq<byte>)
    requires d.Valid()
  {
    [SocksVersion, CmdConnect, Reserved] + EncodeHost(d.host)
      + [d.port / 0x100, d.port % 0x100]
  }

  /**
   * VER, CMD and RSV are checked in that order and the first wrong one
   * ends the parse, having consumed the bytes up to and including it.
   */
  lemma RequestHeaderOrder(s: seq<byte>)
    ensures (ParseRequest(s) == Err(ProtocolViolation(Version), 1))
      <==> |s| >= 1 && s[0] != SocksVersion
    ensures (ParseRequest(s) == Err(ProtocolViolation(Command), 2))
      <==> |s| >= 2 && s[0] == SocksVersion && s[1] != CmdConnect
    ensures (ParseRequest(s) == Err(ProtocolViolation(ReservedByte), 3))
      <==> |s| >= 3 && s[0] == SocksVersion && s[1] == CmdConnect && s[2] != Reserved
  {
  }

  /** An address type other than 1, 3 and 4 is refused right after ATYP. */
  lemma UnknownAddressType(s: seq<byte>)
    ensures (ParseRequest(s) == Err(ProtocolViolation(AddressType), 4))
      <==> |s| >= 4 && s[..3] == [SocksVersion, CmdConnect, Reserved]
           && s[3] !in {AtypIpv4, AtypDomain, AtypIpv6}
  {
    if |s| >= 4 && s[..3] == [SocksVersion, CmdConnect, Reserved] {
      assert s[0] == SocksVersion && s[1] == CmdConnect && s[2] == Reserved;
    }
  }

  /** The host parser reads back what EncodeHost wrote, and nothing more. */
  lemma HostRoundTrip(h: Host, rest: seq<byte>)
    requires h.Valid()
    ensures var e := EncodeHost(h);
      ParseHost(e[0], e[1..] + rest) == Ok(h, |e| - 1)
  {
    var e := EncodeHost(h);
    var s := e[1..] + rest;
    match h
    case Ipv4(o) =>
      assert s[..4] == o;
    case DomainName(n) =>
      assert s[1..1 + |n|] == n;
    case Ipv6(g) =>
      assert s[..16] == SegmentBytes(g);
      SegmentsOfBytes(g);
  }

  /** Parsing an encoded request gives back its destination. */
  lemma RequestRoundTrip(d: Dest, rest: seq<byte>)
    requires d.Valid()
    ensures ParseRequest(EncodeRequest(d) + rest) == Ok(d, |EncodeRequest(d)|)
  {
    var e := EncodeHost(d.host);
    var s := EncodeRequest(d) + rest;
    var n := |e| - 1;
    assert s[..3] == [SocksVersion, CmdConnect, Reserved];
    assert s[3] == e[0];
    assert s[4..] == e[1..] + ([d.port / 0x100, d.port % 0x100] + rest);
    HostRoundTrip(d.host, [d.port / 0x100, d.port % 0x100] + rest);
    assert s[4 + n] == d.port / 0x100 && s[5 + n] == d.port % 0x100;
    Be16Split(d.port);
  }

  /** The host parser accepts only what EncodeHost writes. */
  lemma HostAcceptsOnlyEncodings(atyp: byte, s: seq<byte>)
    requires ParseHost(atyp, s).Ok?
    ensures [atyp] + s[..ParseHost(atyp, s).used] == EncodeHost(ParseHost(atyp, s).value)
  {
    var r := ParseHost(atyp, s);
    if atyp == AtypDomain {
      assert s[..r.used] == [s[0]] + s[1..r.used];
    } else if atyp == AtypIpv6 {
      BytesOfSegments(s[..16]);
    }
  }

  /** Whatever the parser accepts is the encoding of the destination it yields. */
  lemma RequestAcceptsOnlyEncodings(s: seq<byte>)
    requires ParseRequest(s).Ok?
    ensures s[..ParseRequest(s).used] == EncodeRequest(ParseRequest(s).value)
  {
    var r := ParseRequest(s);
    var h := ParseHost(s[3], s[4..]);
    HostAcceptsOnlyEncodings(s[3], s[4..]);
    var n := h.used;
    assert h.Ok? && r.used == 6 + n && r.value == Dest(h.value, Be16(s[4 + n], s[5 + n]));
    assert s[..3] == [SocksVersion, CmdConnect, Reserved];
    assert s[4..][..n] == s[4..4 + n];
    assert s[..r.used] == s[..3] + ([s[3]] + s[4..4 + n]) + [s[4 + n], s[5 + n]];
  }

  /**
   * Each address type consumes exactly its own length: ten bytes in all
   * for IPv4, seven plus the name for a domain, twenty-two for IPv6.
   */
  lemma RequestLength(s: seq<byte>)
    requires ParseRequest(s).Ok?
    ensures var r := ParseRequest(s);
      r.used == match r.value.host
        case Ipv4(_) => 10
        case DomainName(n) => 7 + |n|
        case Ipv6(_) => 22
  {
    RequestAcceptsOnlyEncodings(s);
  }

  /** A request cut short anywhere is a truncation, never a success. */
  lemma RequestPrefixTruncated(d: Dest, k: nat)
    requires d.Valid()
    requires k < |EncodeRequest(d)|
    ensures ParseRequest(EncodeRequest(d)[..k]) == Err(Truncated, k)
  {
    var full := EncodeRequest(d);
    var s := full[..k];
    var e := EncodeHost(d.host);
    assert forall i :: 0 <= i < k ==> s[i] == full[i];
    if k >= 4 {
      assert s[..3] == [SocksVersion, CmdConnect, Reserved];
      assert s[3] == e[0];
      var body := s[4..];
      assert forall i :: 0 <= i < |body| && i < |e| - 1 ==> body[i] == e[1 + i];
      match d.host
      case Ipv4(o) =>
      case DomainName(nm) =>
        if |body| >= 1 {
          assert body[0] == |nm|;
        }
      case Ipv6(g) =>
    }
  }

  // ---------------------------------------------------------------------
  // One session, from the first byte to the reply

  /** What a session writes to the client and how it ends. */
  datatype Session = Session(written: seq<byte>, result: Outcome<string>)

  /**
   * The part of a session after the greeting: the request, then the dial
   * of the destination string; the CONNECT reply follows only a
   * successful dial. `dial` stands for the outbound connection attempt,
   * whose outcome the model does not compute.
   */
  function Connect(s: seq<byte>, dial: string -> bool): (r: Session)
    ensures r.result.used <= |s|
  {
    match ParseRequest(s)
    case Err(e, m) => Session([], Err(e, m))
    case Ok(d, m) =>
      var dst := DestText(d);
      if dial(dst) then Session(ConnectReply, Ok(dst, m))
      else Session([], Err(ConnectError, m))
  }

  /** A whole session: the greeting and its `05 00`, then `Connect`. */
  function RunSession(s: seq<byte>, dial: string -> bool): (r: Session)
    ensures r.result.used <= |s|
  {
    match Greeting(s)
    case Err(e, n) => Session([], Err(e, n))
    case Ok(_, n) =>
      var c := Connect(s[n..], dial);
      Session(GreetingReply + c.written, c.result.(used := n + c.result.used))
  }

  /**
   * The ten-byte reply is written exactly when the session succeeds, and
   * a session succeeds only when its destination was dialled successfully.
   * A rejected greeting writes nothing; anything else writes `05 00` first.
   */
  lemma ReplyOnlyAfterDial(s: seq<byte>, dial: string -> bool)
    ensures var r := RunSession(s, dial);
      && (r.written == GreetingReply + ConnectReply <==> r.result.Ok?)
      && (r.result.Ok? ==> dial(r.result.value))
      && (r.written == [] <==> Greeting(s).Err?)
      && (r.written == GreetingReply <==> Greeting(s).Ok? && r.result.Err?)
  {
    assert GreetingReply + ConnectReply != GreetingReply;
  }

  /**
   * A well-formed request for `d` is answered with the CONNECT reply
   * exactly when the dial of `d`'s text succeeds, and the bytes after
   * the request are left unread.
   */
  lemma ConnectWellFormed(d: Dest, rest: seq<byte>, dial: string -> bool)
    requires d.Valid()
    ensures var used := |EncodeRequest(d)|;
      Connect(EncodeRequest(d) + rest, dial)
        == if dial(DestText(d)) then Session(ConnectReply, Ok(DestText(d), used))
           else Session([], Err(ConnectError, used))
  {
    RequestRoundTrip(d, rest);
  }

  /**
   * After a greeting that offers `methods`, the session is `Connect` on
   * what follows, behind the `05 00` answer.
   */
  lemma SessionAfterGreeting(methods: seq<byte>, tail: seq<byte>, dial: string -> bool)
    requires |methods| <= 0xff
    ensures var c := Connect(tail, dial);
      RunSession(EncodeGreeting(methods) + tail, dial)
        == Session(GreetingReply + c.written, c.result.(used := 2 + |methods| + c.result.used))
  {
    GreetingRoundTrip(methods, tail);
    DropAppend(EncodeGreeting(methods), tail);
  }

  /**
   * A well-behaved client that offers any methods and asks for `d` is
   * answered `05 00`, and then the CONNECT reply exactly when the dial of
   * `d`'s text succeeds; the session consumes the greeting and the
   * request and nothing of what follows.
   */
  lemma WellFormedSession(methods: seq<byte>, d: Dest, rest: seq<byte>, dial: string -> bool)
    requires |methods| <= 0xff && d.Valid()
    ensures var used := |EncodeGreeting(methods)| + |EncodeRequest(d)|;
      RunSession(EncodeGreeting(methods) + EncodeRequest(d) + rest, dial)
        == if dial(DestText(d)) then Session(GreetingReply + ConnectReply, Ok(DestText(d), used))
           else Session(GreetingReply, Err(ConnectError, used))
  {
    AppendAssoc(EncodeGreeting(methods), EncodeRequest(d), rest);
    SessionAfterGreeting(methods, EncodeRequest(d) + rest, dial);
    ConnectWellFormed(d, rest, dial);
    assert GreetingReply + [] == GreetingReply;
  }
}
