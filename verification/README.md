# socks5-rust front end, modelled in Dafny

This project models the byte-level front end of a small SOCKS version 5
proxy (RFC 1928). It covers one client connection, from its first byte to
the point where the relay would start:

- **Greeting** (`do_greeting`, section 3 of RFC 1928). The server reads VER,
  then NMETHODS = N, then exactly N method bytes. It always answers `05 00`
  and never looks at the methods offered.
- **CONNECT request** (`parse_dst`, sections 4 and 5 of RFC 1928). VER = 5,
  CMD = 1 and RSV = 0 are checked in that order. Then ATYP selects one of
  three address forms: four IPv4 octets, a length byte L and L name bytes,
  or sixteen IPv6 bytes. A big-endian port follows. The result is the text
  `host:port`.
- **Dial and reply** (`handle`). The destination string is dialled. Only
  when that succeeds are the ten bytes `05 00 00 01 00 00 00 00 00 00`
  written, one `write` at a time.

The model has two layers:

- Pure functions over the client's bytes (modules `Wire`, `Text`,
  `Address`, `Protocol`) say what each message consumes, what it yields and
  which error ends the session. Each operation is linked by proof to a
  partner:
  - the greeting and request parsers to the encoders `EncodeGreeting` and
    `EncodeRequest`, in both directions;
  - the number formatter to the reference reader `NumeralValue`;
  - the dotted-decimal and IPv6 host texts to the readers `Ipv4Read` and
    `Ipv6Read`, which split at '.' or ':' and expand `::`;
  - the destination string to the split at its last ':' that a dialer
    applies;
  - the big-endian byte pairs to the source's own shift-or on 8- and
    16-bit values.
- Imperative methods (module `Core`) follow the source step by step. They
  use a `Reader` over the client's bytes with a cursor, a `Writer` that
  collects what is sent back, and a fresh 256-byte scratch `array` per
  parser, which `read_exact` always fills from the front. Each method is
  proved to consume and produce exactly what its specification function
  says.

Errors:

- `panic!("unreachable!")` on a bad VER, CMD, RSV or ATYP byte is modelled
  as `ProtocolViolation(field)`. The panic ends only the connection's thread.
- A stream that ends early makes `read_exact` fail, modelled as `Truncated`.
- A failed dial is modelled as `ConnectError`.
- Every outcome records how many bytes were taken from the stream. On
  `Truncated` that is all of them, because `read_exact` drains the stream
  before it fails.

In the code the dial (`src/core.rs:97`) comes before the reply
(`src/core.rs:103-116`), and a failed dial ends the connection with no
reply after `05 00`.

Text formats follow Rust's standard library:

- decimal octets and port;
- lower-case hexadecimal IPv6 groups;
- the first longest run of two or more zero groups becomes `::`;
- an IPv4-mapped address prints as `::ffff:a.b.c.d`.

## Model

| member | source | states |
|---|---|---|
| Wire.Be16 | src/core.rs:80 | two bytes in network order: the result's high byte is `hi` and its low byte is `lo` |
| Wire.Be16Split | src/core.rs:80 | every port or IPv6 group is `Be16` of its own high and low byte, so decoding loses nothing |
| Wire.ShiftOrIsBe16 | src/core.rs:66-80 | the source's `((hi as u16) << 8) \| (lo as u16)` on 8- and 16-bit values equals the big-endian value `Be16(hi, lo)` for every pair of bytes |
| Text.Numeral | src/core.rs:81 | the numeral is non-empty, made only of digits of its base, and has no leading zero |
| Text.NumeralRoundTrip | src/core.rs:81 | reading the printed numeral back with the reference parser gives the number |
| Text.NumeralInjective | src/core.rs:81 | different numbers print differently |
| Address.DomainText | src/core.rs:60 | the host text of a domain has exactly one character per name byte, with that byte's code, and no terminator |
| Address.Ipv4Text | src/core.rs:53 | `Ipv4Addr`'s dotted-decimal text of four octets; `Address.Ipv4TextRoundTrip` proves it reads back |
| Address.Ipv4TextRoundTrip | src/core.rs:53 | reading the dotted text of any four octets field by field in decimal gives the four octets back |
| Address.ZeroRunAt | src/core.rs:65-74 | the count is a run of zero groups that is followed by a non-zero group or by the end |
| Address.LongestZeroRun | src/core.rs:65-74 | the chosen run is all zeros, no run is longer, and every earlier start has a strictly shorter run (first longest run) |
| Address.Ipv6Text | src/core.rs:65-74 | `Ipv6Addr`'s text: `::ffff:a.b.c.d` when IPv4-mapped, otherwise hex groups with the first longest run of two or more zero groups as `::`; `Protocol.Ipv6TextForms` proves what it means |
| Address.PlainGroupsRoundTrip | src/core.rs:65-74 | eight groups printed without `::` read back as the groups |
| Address.CompressedRoundTrip | src/core.rs:65-74 | eight groups printed with any run of zero groups as `::` read back as the groups, whether the run is at the start, the end or in between |
| Address.Ipv6TextRoundTrip | src/core.rs:65-74 | the text of every address that is not IPv4-mapped reads back as its eight groups |
| Address.HostText | src/core.rs:49-77 | the host text of each address type: dotted decimal, the name's bytes, or IPv6 text; each form reads back as shown by the lemmas above |
| Address.DestText | src/core.rs:81 | `format!("{}:{}", host, port)`; `Address.DestTextRoundTrip` proves its parts can be recovered |
| Address.SplitAfterLastColon | src/core.rs:81 | cutting `h:t` at its last ':' gives `h` and `t` back when `t` has no ':' |
| Address.DestTextRoundTrip | src/core.rs:81 | the destination string determines its parts: cut at the last ':' it yields the host text and the port's decimal, and that decimal reads back as the port |
| Protocol.Greeting | src/core.rs:5-27 | the greeting never consumes more than it is given; it fails only on a short stream, which it drains, or on a bad version |
| Protocol.GreetingReply | src/core.rs:21-22 | the method-selection answer: VER 5 and method 0, no authentication |
| Protocol.ConnectReply | src/core.rs:103-116 | the ten reply bytes: VER 5, REP 0, RSV 0, ATYP 1, BND.ADDR 0.0.0.0, BND.PORT 0 |
| Protocol.ConnectReplyLayout | src/core.rs:103-116 | the reply is VER 5, REP succeeded and RSV 0; read with the request's own address parser, its last seven bytes are 0.0.0.0 port 0 and end the reply |
| Protocol.EncodeGreeting | src/core.rs:9-17 | a client's greeting is two bytes longer than its method list |
| Protocol.GreetingBadVersion | src/core.rs:9-13 | a first byte other than 5 is rejected after one byte, and only such a byte is |
| Protocol.GreetingConsumes | src/core.rs:15-22 | with VER = 5 and N present, success comes exactly when N more bytes follow; it then consumes 2 + N bytes and yields those N bytes whatever they are |
| Protocol.GreetingRoundTrip | src/core.rs:15-17 | an encoded greeting followed by anything parses to its methods and consumes only itself |
| Protocol.GreetingAcceptsOnlyEncodings | src/core.rs:9-17 | every accepted greeting is exactly the encoding of what it yields |
| Protocol.GreetingPrefixTruncated | src/core.rs:9-17 | every proper prefix of a greeting is a truncation that consumes all it has |
| Protocol.Segments | src/core.rs:64-74 | sixteen address bytes give eight groups |
| Protocol.SegmentBytes | src/core.rs:64-74 | eight groups give sixteen bytes |
| Protocol.SegmentsBigEndian | src/core.rs:66-73 | IPv6 group i is the source's shift-or `((b[2i] as u16) << 8) \| (b[2i + 1] as u16)` of its two bytes |
| Protocol.SegmentsOfBytes | src/core.rs:65-74 | the groups of the bytes of eight groups are those groups |
| Protocol.BytesOfSegments | src/core.rs:65-74 | the bytes of the groups of sixteen bytes are those bytes |
| Protocol.MappedGroups | src/core.rs:65-74 | an address is IPv4-mapped in the byte test of `to_ipv4_mapped` (ten zero bytes, then ff ff) exactly when its groups begin 0:0:0:0:0:ffff |
| Protocol.Ipv6TextForms | src/core.rs:62-75 | an IPv4-mapped address prints as `::ffff:` plus the dotted text of its last four bytes, which reads back as those bytes; every other address prints as text that reads back as its groups |
| Protocol.ParseHost | src/core.rs:47-77 | DST.ADDR never consumes more than it is given; a result is a well-formed host; it fails only on a short stream, which it drains, or on an unknown ATYP |
| Protocol.ParseAddress | src/core.rs:47-80 | DST.ADDR and DST.PORT: the same guarantees, with a well-formed destination |
| Protocol.PortShiftOr | src/core.rs:79-80 | after DST.ADDR, DST.PORT is the source's shift-or of the next two bytes, and the address takes two bytes more than the host |
| Protocol.ParseRequest | src/core.rs:30-80 | the request never consumes more than it is given, yields a well-formed destination, never reports a dial error, and drains the stream when it is short |
| Protocol.RequestText | src/core.rs:30-84 | the destination string succeeds or fails with the parse, consuming the same bytes and reporting the same error |
| Protocol.RequestHeaderOrder | src/core.rs:32-45 | VER, then CMD, then RSV: each is rejected exactly when every earlier header byte was right and it is wrong |
| Protocol.UnknownAddressType | src/core.rs:47-76 | after a valid header, an ATYP outside {1, 3, 4} is rejected after four bytes, and only such a byte is |
| Protocol.HostRoundTrip | src/core.rs:49-75 | parsing the encoding of any well-formed host gives it back and consumes only its encoding |
| Protocol.RequestRoundTrip | src/core.rs:30-80 | parsing the encoding of any well-formed destination gives it back and consumes only its encoding |
| Protocol.HostAcceptsOnlyEncodings | src/core.rs:47-77 | every accepted DST.ADDR, with its ATYP, is exactly the encoding of the host it yields |
| Protocol.RequestAcceptsOnlyEncodings | src/core.rs:30-80 | every accepted request is exactly the encoding of the destination it yields |
| Protocol.RequestLength | src/core.rs:50-79 | an accepted request is 10 bytes for IPv4, 7 + L for a domain of L bytes and 22 for IPv6 |
| Protocol.RequestPrefixTruncated | src/core.rs:32-79 | every proper prefix of a request is a truncation that consumes all it has |
| Protocol.Connect | src/core.rs:93-116 | after the greeting, a session consumes no more than it is given |
| Protocol.RunSession | src/core.rs:88-116 | a session consumes no more than it is given |
| Protocol.ReplyOnlyAfterDial | src/core.rs:92-116 | the ten-byte reply is written exactly when the session succeeds; success implies the dial of the destination succeeded; nothing is written exactly when the greeting fails; only `05 00` is written exactly when the greeting passes and the session then fails |
| Protocol.ConnectWellFormed | src/core.rs:93-116 | a well-formed request gets the CONNECT reply exactly when the dial of its destination string succeeds, and what follows it is not read |
| Protocol.SessionAfterGreeting | src/core.rs:91-93 | after a well-formed greeting the session writes `05 00` and continues with the request on exactly the following bytes |
| Protocol.WellFormedSession | src/core.rs:88-116 | a well-behaved client gets `05 00`, then the CONNECT reply exactly when the dial succeeds; the session consumes the greeting and the request and nothing more |
| Streams.Reader.ReadExact | src/core.rs:17 | `read_exact`: it succeeds exactly when n bytes remain; it then copies them to the front of the buffer and advances n; otherwise it drains the stream into the buffer and fails; it never touches cells from n on |
| Streams.Writer.Write | src/core.rs:21-22 | a one-byte write appends its byte to what the client has received |
| Core.DoGreeting | src/core.rs:5-27 | the greeting read through the 256-byte buffer gives exactly `Greeting` of the input, consumes what it reports, and writes `05 00` only when it succeeds; the read of N ≤ 255 method bytes stays in bounds |
| Core.ParseDst | src/core.rs:30-84 | the request read from the stream gives exactly `RequestText` of the input and consumes what it reports |
| Core.ReadDest | src/core.rs:30-80 | the header checks and address reads give exactly `ParseRequest` of the input |
| Core.ReadAddress | src/core.rs:47-80 | DST.ADDR and DST.PORT read from the stream give exactly `ParseAddress` of the input |
| Core.ReadHost | src/core.rs:47-77 | DST.ADDR read into the scratch buffer gives exactly `ParseHost` of the input; the L ≤ 255 name bytes fit the buffer |
| Core.ReadIpv6 | src/core.rs:62-75 | the sixteen bytes read as eight big-endian groups give exactly `ParseHost` for ATYP 4 |
| Core.WriteReply | src/core.rs:101-116 | the ten writes deliver exactly `05 00 00 01 00 00 00 00 00 00` |
| Core.Serve | src/core.rs:93-116 | request, dial and reply behave exactly as `Connect`: the reply is written only after a successful dial |
| Core.Handle | src/core.rs:88-116 | one connection behaves exactly as `RunSession`: same outcome, same bytes written, same bytes consumed |
| Scenarios.Ipv4HostText | src/core.rs:53 | 93.184.216.34 prints in dotted decimal, octets in order |
| Scenarios.Ipv4Request | src/core.rs:50-54 | `05 01 00 01 5d b8 d8 22 00 50` yields `93.184.216.34:80` after 10 bytes |
| Scenarios.DomainRequest | src/core.rs:55-61 | a CONNECT to `example.com` port 80 yields `example.com:80` after 18 bytes |
| Scenarios.Ipv6HostText | src/core.rs:65-74 | 2001:db8:0:0:0:0:0:1 prints as `2001:db8::1` |
| Scenarios.Ipv6Request | src/core.rs:62-75 | a CONNECT to 2001:db8::1 port 443 yields `2001:db8::1:443` after 22 bytes |

## Left out

- The relay (`src/core.rs:118-121`): two `std::io::copy` loops on separate threads. This is concurrency over sockets.
- `main` (`src/core.rs:126-157`): argument parsing, the listener's accept loop and one thread per connection. This is I/O and concurrency.
- `println!` logging (`src/core.rs:24, 89, 94, 148, 153`).
- `try_clone` of the streams (`src/core.rs:90-91, 98-99`). The model reads and writes the one connection directly.
- `TcpStream::connect` (`src/core.rs:97`) is the `dial` parameter, a function from the destination string to success or failure. Name resolution and the network are outside the model.
- Operating-system errors other than the end of the stream: a failing read, a `peer_addr` failure, a failing `write`. `Writer.Write` always delivers its byte.
- Partial writes: the byte count returned by `write` is ignored by the source, and every write is modelled as delivering its byte in full.
- Process-level effect of `panic!`: the model returns a `ProtocolViolation` error where the source unwinds the connection's thread.
- DomainText: maps each byte to the character with that code. This agrees with `String::from_utf8_lossy` for ASCII names only; the replacement of invalid UTF-8 by U+FFFD is not modelled.
- Ipv6Text: follows the `Display` of `Ipv6Addr` in current Rust releases (IPv4-mapped addresses as `::ffff:a.b.c.d`, no other IPv4 form). Older standard libraries also printed IPv4-compatible addresses in dotted form; that variant is not modelled.
