/**
 * The per-connection front end of the proxy: the method-selection
 * greeting, the CONNECT request, and the reply sent once the destination
 * has been dialled. Each parser reads from the client into its own
 * 256-byte scratch buffer, always at the front, as the server does.
 */
module Core {
  import opened Wire
  import opened Address
  import opened Protocol
  import opened Streams
  import opened Seqs

  /** Size of the scratch buffer (`vec![0x00; 256]`). */
  const ScratchSize: nat := 256

  /**
   * Reads the greeting and answers `05 00` whatever methods were offered.
   * Nothing is written unless the greeting was read in full.
   */
  method DoGreeting(src: Reader, out: Writer) returns (res: Outcome<seq<byte>>)
    requires src.Valid()
    modifies src, out
    ensures src.Valid()
    ensures res == Greeting(src.input[old(src.pos)..])
    ensures src.pos == old(src.pos) + res.used
    ensures out.output == old(out.output) + (if res.Ok? then GreetingReply else [])
  {
    ghost var s := src.input[src.pos..];
    var start := src.pos;
    var buf := new byte[ScratchSize](_ => 0);
    var ok := src.ReadExact(buf, 1);
    if !ok {
      return Err(Truncated, src.pos - start);
    }
    if buf[0] != SocksVersion {
      return Err(ProtocolViolation(Version), 1);
    }
    ok := src.ReadExact(buf, 1);
    if !ok {
      return Err(Truncated, src.pos - start);
    }
    var count: nat := buf[0];
    ok := src.ReadExact(buf, count);
    if !ok {
      return Err(Truncated, src.pos - start);
    }
    SliceOfDrop(src.input, start, 2, 2 + count);
    out.Write(SocksVersion);
    out.Write(MethodNoAuth);
    res := Ok(buf[..count], 2 + count);
  }

  /**
   * Reads the CONNECT request and produces the destination string
   * `host:port` (the `format!` at the end of the parse).
   */
  method ParseDst(src: Reader) returns (res: Outcome<string>)
    requires src.Valid()
    modifies src
    ensures src.Valid()
    ensures res == RequestText(src.input[old(src.pos)..])
    ensures src.pos == old(src.pos) + res.used
  {
    var dest := ReadDest(src);
    match dest
    case Err(e, n) => res := Err(e, n);
    case Ok(d, n) => res := Ok(DestText(d), n);
  }

  /**
   * The reads of the request: the first header byte with a wrong value,
   * an unknown address type, or the end of the stream ends the parse.
   */
  method ReadDest(src: Reader) returns (res: Outcome<Dest>)
    requires src.Valid()
    modifies src
    ensures src.Valid()
    ensures res == ParseRequest(src.input[old(src.pos)..])
    ensures src.pos == old(src.pos) + res.used
  {
    ghost var s := src.input[src.pos..];
    var start := src.pos;
    var buf := new byte[ScratchSize](_ => 0);
    var ok := src.ReadExact(buf, 1);
    if !ok {
      return Err(Truncated, src.pos - start);
    }
    if buf[0] != SocksVersion {
      return Err(ProtocolViolation(Version), 1);
    }
    ok := src.ReadExact(buf, 1);
    if !ok {
      return Err(Truncated, src.pos - start);
    }
    assert s[1] == buf[0];
    if buf[0] != CmdConnect {
      return Err(ProtocolViolation(Command), 2);
    }
    ok := src.ReadExact(buf, 1);
    if !ok {
      return Err(Truncated, src.pos - start);
    }
    assert s[2] == buf[0];
    if buf[0] != Reserved {
      return Err(ProtocolViolation(ReservedByte), 3);
    }
    ok := src.ReadExact(buf, 1);
    if !ok {
      return Err(Truncated, src.pos - start);
    }
    var atyp := buf[0];
    assert s[3] == atyp;
    DropDrop(src.input, start, 4);
    var dest := ReadAddress(src, buf, atyp, s[4..]);
    match dest
    case Err(e, n) => res := Err(e, 4 + n);
    case Ok(d, n) => res := Ok(d, 4 + n);
  }

  /** DST.ADDR and then the two bytes of DST.PORT, most significant first. */
  method ReadAddress(src: Reader, buf: array<byte>, atyp: byte, ghost rest: seq<byte>)
    returns (res: Outcome<Dest>)
    requires src.Valid() && buf.Length == ScratchSize && rest == src.input[src.pos..]
    modifies src, buf
    ensures src.Valid()
    ensures res == ParseAddress(atyp, rest)
    ensures src.pos == old(src.pos) + res.used
  {
    var start := src.pos;
    var host := ReadHost(src, buf, atyp, rest);
    if host.Err? {
      return Err(host.error, host.used);
    }
    var ok := src.ReadExact(buf, 2);
    if !ok {
      return Err(Truncated, src.pos - start);
    }
    assert rest[host.used] == buf[0] && rest[host.used + 1] == buf[1];
    var port := Be16(buf[0], buf[1]);
    res := Ok(Dest(host.value, port), host.used + 2);
  }

  /**
   * The address part of the request: DST.ADDR for address type `atyp`,
   * read into the request's scratch buffer `buf`.
   */
  method ReadHost(src: Reader, buf: array<byte>, atyp: byte, ghost rest: seq<byte>)
    returns (res: Outcome<Host>)
    requires src.Valid() && buf.Length == ScratchSize && rest == src.input[src.pos..]
    modifies src, buf
    ensures src.Valid()
    ensures res == ParseHost(atyp, rest)
    ensures src.pos == old(src.pos) + res.used
  {
    var start := src.pos;
    var ok: bool;
    if atyp == AtypIpv4 {
      ok := src.ReadExact(buf, 4);
      if !ok {
        return Err(Truncated, src.pos - start);
      }
      var octets := [buf[0], buf[1], buf[2], buf[3]];
      SliceOfDrop(src.input, start, 0, 4);
      assert octets == buf[..4];
      res := Ok(Ipv4(octets), 4);
    } else if atyp == AtypDomain {
      ok := src.ReadExact(buf, 1);
      if !ok {
        return Err(Truncated, src.pos - start);
      }
      var len: nat := buf[0];
      assert rest[0] == len;
      ok := src.ReadExact(buf, len);
      if !ok {
        return Err(Truncated, src.pos - start);
      }
      SliceOfDrop(src.input, start, 1, 1 + len);
      res := Ok(DomainName(buf[..len]), 1 + len);
    } else if atyp == AtypIpv6 {
      res := ReadIpv6(src, buf, rest);
    } else {
      res := Err(ProtocolViolation(AddressType), 0);
    }
  }

  /** The sixteen bytes of an IPv6 DST.ADDR, read as eight big-endian groups. */
  method ReadIpv6(src: Reader, buf: array<byte>, ghost rest: seq<byte>) returns (res: Outcome<Host>)
    requires src.Valid() && buf.Length == ScratchSize && rest == src.input[src.pos..]
    modifies src, buf
    ensures src.Valid()
    ensures res == ParseHost(AtypIpv6, rest)
    ensures src.pos == old(src.pos) + res.used
  {
    var start := src.pos;
    var ok := src.ReadExact(buf, 16);
    if !ok {
      return Err(Truncated, src.pos - start);
    }
    var groups := [
      Be16(buf[0x00], buf[0x01]), Be16(buf[0x02], buf[0x03]),
      Be16(buf[0x04], buf[0x05]), Be16(buf[0x06], buf[0x07]),
      Be16(buf[0x08], buf[0x09]), Be16(buf[0x0a], buf[0x0b]),
      Be16(buf[0x0c], buf[0x0d]), Be16(buf[0x0e], buf[0x0f])];
    SliceOfDrop(src.input, start, 0, 16);
    assert groups == Segments(buf[..16]);
    res := Ok(Ipv6(groups), 16);
  }

  /** The ten single-byte writes of the CONNECT reply. */
  method WriteReply(out: Writer)
    modifies out
    ensures out.output == old(out.output) + ConnectReply
  {
    out.Write(SocksVersion);     // VER
    out.Write(ReplySucceeded);   // REP
    out.Write(Reserved);         // RSV
    out.Write(AtypIpv4);         // ATYP
    assert out.output == old(out.output) + ConnectReply[..4];
    out.Write(0);                // BND.ADDR
    out.Write(0);
    out.Write(0);
    out.Write(0);
    assert out.output == old(out.output) + ConnectReply[..8];
    out.Write(0);                // BND.PORT
    out.Write(0);
  }

  /**
   * Request, dial and reply, once the greeting is done: reads the
   * request, dials its destination string and writes the CONNECT reply
   * only if the dial succeeded. `rest` names the bytes still to be read.
   */
  method Serve(src: Reader, out: Writer, dial: string -> bool, ghost rest: seq<byte>)
    returns (res: Outcome<string>)
    requires src.Valid() && rest == src.input[src.pos..]
    modifies src, out
    ensures src.Valid()
    ensures res == Connect(rest, dial).result
    ensures out.output == old(out.output) + Connect(rest, dial).written
    ensures src.pos == old(src.pos) + res.used
  {
    var request := ParseDst(src);
    if request.Err? {
      return request;
    }
    var dst := request.value;
    var connected := dial(dst);
    if !connected {
      return Err(ConnectError, request.used);
    }
    WriteReply(out);
    res := request;
  }

  /**
   * One connection up to the relay: greeting, request, dial, reply. On
   * success the result carries the destination the relay would connect
   * the client to.
   */
  method Handle(src: Reader, out: Writer, dial: string -> bool) returns (res: Outcome<string>)
    requires src.Valid()
    modifies src, out
    ensures src.Valid()
    ensures res == RunSession(src.input[old(src.pos)..], dial).result
    ensures out.output == old(out.output) + RunSession(src.input[old(src.pos)..], dial).written
    ensures src.pos == old(src.pos) + res.used
  {
    ghost var s := src.input[src.pos..];
    ghost var before := out.output;
    var greeting := DoGreeting(src, out);
    if greeting.Err? {
      return Err(greeting.error, greeting.used);
    }
    ghost var rest := s[greeting.used..];
    DropDrop(src.input, src.pos - greeting.used, greeting.used);
    res := Serve(src, out, dial, rest);
    AppendAssoc(before, GreetingReply, Connect(rest, dial).written);
    res := res.(used := greeting.used + res.used);
  }
}
