/**
 * Destination addresses of a CONNECT request (section 5 of RFC 1928) and
 * the `host:port` text the server dials.
 */
module Address {
  import opened Wire
  import opened Text
  import opened Seqs

  /** DST.ADDR in each of the three encodings the server accepts. */
  datatype Host =
    | Ipv4(octets: seq<byte>)
    | DomainName(name: seq<byte>)
    | Ipv6(segments: seq<u16>)
  {
    /** Four octets; a name whose length fits its one-byte prefix; eight groups. */
    predicate Valid()
    {
      match this
      case Ipv4(o) => |o| == 4
      case DomainName(n) => |n| <= 0xff
      case Ipv6(g) => |g| == 8
    }
  }

  /** DST.ADDR together with DST.PORT. */
  datatype Dest = Dest(host: Host, port: u16)
  {
    predicate Valid()
    {
      host.Valid()
    }
  }

  /** Dotted-decimal text of four octets, in order (`Ipv4Addr`'s `Display`). */
  function Ipv4Text(o: seq<byte>): string
    requires |o| == 4
  {
    Decimal(o[0]) + "." + Decimal(o[1]) + "." + Decimal(o[2]) + "." + Decimal(o[3])
  }

  /** A domain name's text, one character per byte (no terminator). */
  function DomainText(name: seq<byte>): (s: string)
    ensures |s| == |name|
    ensures forall i :: 0 <= i < |name| ==> s[i] as int == name[i]
  {
    seq(|name|, i requires 0 <= i < |name| => name[i] as char)
  }

  /** Hexadecimal groups separated by ':'. */
  function Groups(g: seq<u16>): string
  {
    if g == [] then "" else Hex(g[0]) + ColonGroups(g[1..])
  }

  /** Each group preceded by ':'. */
  function ColonGroups(g: seq<u16>): string
  {
    if g == [] then "" else ":" + Hex(g[0]) + ColonGroups(g[1..])
  }

  /** Number of consecutive zero groups starting at index `i`. */
  function ZeroRunAt(g: seq<u16>, i: nat): (n: nat)
    ensures n == 0 || i + n <= |g|
    ensures forall k :: i <= k < i + n ==> g[k] == 0
    ensures i + n < |g| ==> g[i + n] != 0
    decreases |g| - i
  {
    if i < |g| && g[i] == 0 then 1 + ZeroRunAt(g, i + 1) else 0
  }

  /**
   * Scans the starts `i..` for a longer run than `best` (start, length);
   * a later run of equal length does not replace an earlier one.
   */
  function LongestFrom(g: seq<u16>, i: nat, best: (nat, nat)): (r: (nat, nat))
    requires best.1 == 0 ==> best.0 == 0
    requires best.1 > 0 ==> best.0 < i && ZeroRunAt(g, best.0) == best.1
    requires forall j :: 0 <= j < i ==> ZeroRunAt(g, j) <= best.1
    requires forall j :: 0 <= j < best.0 ==> ZeroRunAt(g, j) < best.1
    ensures r.1 == 0 ==> r.0 == 0
    ensures r.1 > 0 ==> ZeroRunAt(g, r.0) == r.1
    ensures forall j :: 0 <= j < |g| ==> ZeroRunAt(g, j) <= r.1
    ensures forall j :: 0 <= j < r.0 ==> ZeroRunAt(g, j) < r.1
    decreases |g| - i
  {
    if i >= |g| then
      assert forall j :: |g| <= j ==> ZeroRunAt(g, j) == 0;
      best
    else
      var n := ZeroRunAt(g, i);
      LongestFrom(g, i + 1, if n > best.1 then (i, n) else best)
  }

  /**
   * The first longest run of zero groups, as (start, length); (0, 0) when
   * there is no zero group.
   */
  function LongestZeroRun(g: seq<u16>): (r: (nat, nat))
    ensures r.0 + r.1 <= |g|
    ensures forall k :: r.0 <= k < r.0 + r.1 ==> g[k] == 0
    ensures forall j :: 0 <= j < |g| ==> ZeroRunAt(g, j) <= r.1
    ensures forall j :: 0 <= j < r.0 ==> ZeroRunAt(g, j) < r.1
  {
    LongestFrom(g, 0, (0, 0))
  }

  /**
   * Text of an IPv6 address as `Ipv6Addr`'s `Display` prints it: an
   * IPv4-mapped address as `::ffff:a.b.c.d`; otherwise lower-case hex
   * groups, with the first longest run of two or more zero groups
   * replaced by `::`.
   */
  function Ipv6Text(g: seq<u16>): string
    requires |g| == 8
  {
    if g[..6] == [0, 0, 0, 0, 0, 0xffff] then
      "::ffff:" + Ipv4Text([g[6] / 0x100, g[6] % 0x100, g[7] / 0x100, g[7] % 0x100])
    else
      var (start, len) := LongestZeroRun(g);
      if len > 1 then Groups(g[..start]) + "::" + Groups(g[start + len..])
      else Groups(g)
  }

  function HostText(h: Host): string
    requires h.Valid()
  {
    match h
    case Ipv4(o) => Ipv4Text(o)
    case DomainName(n) => DomainText(n)
    case Ipv6(g) => Ipv6Text(g)
  }

  /** The destination string `host:port` (`format!("{}:{}", host, port)`). */
  function DestText(d: Dest): string
    requires d.Valid()
  {
    HostText(d.host) + ":" + Decimal(d.port)
  }

  // ---------------------------------------------------------------------
  // Reading host text back: the reference the formatters are checked against

  /** `s` cut at every `sep`: the fields between separators, in order. */
  function Fields(s: string, sep: char): (f: seq<string>)
    ensures |f| >= 1
  {
    if s == [] then [[]]
    else FieldsStep(Fields(s[..|s| - 1], sep), s[|s| - 1], sep)
  }

  /** One more character: a new empty field after `sep`, else the last field grows. */
  function FieldsStep(f: seq<string>, c: char, sep: char): (r: seq<string>)
    requires |f| >= 1
    ensures |r| >= 1
  {
    if c == sep then f + [[]] else f[..|f| - 1] + [f[|f| - 1] + [c]]
  }

  /** A character only touches the last fields. */
  lemma FieldsStepAppend(x: seq<string>, y: seq<string>, c: char, sep: char)
    requires |y| >= 1
    ensures FieldsStep(x + y, c, sep) == x + FieldsStep(y, c, sep)
  {
    var xy := x + y;
    if c != sep {
      assert xy[..|xy| - 1] == x + y[..|y| - 1];
    }
  }

  /** A string without `sep` is a single field. */
  lemma {:induction false} FieldsOfPlain(t: string, sep: char)
    requires forall i :: 0 <= i < |t| ==> t[i] != sep
    ensures Fields(t, sep) == [t]
    decreases |t|
  {
    if t != [] {
      var t' := t[..|t| - 1];
      FieldsOfPlain(t', sep);
      assert t' + [t[|t| - 1]] == t;
    }
  }

  /** The fields of a string with one more character. */
  lemma FieldsSnoc(s: string, c: char, sep: char)
    ensures Fields(s + [c], sep) == FieldsStep(Fields(s, sep), c, sep)
  {
    assert (s + [c])[..|s|] == s;
  }

  /** Joining two strings with `sep` joins their fields. */
  lemma {:induction false} FieldsJoin(a: string, b: string, sep: char)
    ensures Fields(a + [sep] + b, sep) == Fields(a, sep) + Fields(b, sep)
    decreases |b|
  {
    if b == [] {
      assert a + [sep] + b == a + [sep];
      FieldsSnoc(a, sep, sep);
    } else {
      var b', c := b[..|b| - 1], b[|b| - 1];
      var ab' := a + [sep] + b';
      assert a + [sep] + b == ab' + [c];
      assert b == b' + [c];
      FieldsJoin(a, b', sep);
      FieldsSnoc(ab', c, sep);
      FieldsSnoc(b', c, sep);
      FieldsStepAppend(Fields(a, sep), Fields(b', sep), c, sep);
    }
  }

  /** A numeral holds neither '.' nor ':'. */
  lemma NumeralFields(n: nat, base: Base)
    ensures Fields(Numeral(n, base), '.') == [Numeral(n, base)]
    ensures Fields(Numeral(n, base), ':') == [Numeral(n, base)]
  {
    var t := Numeral(n, base);
    assert forall i :: 0 <= i < |t| ==> IsDigitIn(t[i], base);
    FieldsOfPlain(t, '.');
    FieldsOfPlain(t, ':');
  }

  /** The numbers of some decimal or hexadecimal fields. */
  function Values(f: seq<string>, base: Base): (v: seq<nat>)
    ensures |v| == |f|
    ensures forall i :: 0 <= i < |f| ==> v[i] == NumeralValue(f[i], base)
  {
    seq(|f|, i requires 0 <= i < |f| => NumeralValue(f[i], base))
  }

  /** How a dialer reads dotted-decimal text: each field between dots in decimal. */
  function Ipv4Read(s: string): seq<nat>
  {
    Values(Fields(s, '.'), 10)
  }

  /** The text of four octets reads back as those octets. */
  lemma Ipv4TextRoundTrip(o: seq<byte>)
    requires |o| == 4
    ensures Ipv4Read(Ipv4Text(o)) == o
  {
    var d0, d1, d2, d3 := Decimal(o[0]), Decimal(o[1]), Decimal(o[2]), Decimal(o[3]);
    NumeralFields(o[0], 10);
    NumeralFields(o[1], 10);
    NumeralFields(o[2], 10);
    NumeralFields(o[3], 10);
    assert Ipv4Text(o) == d0 + ['.'] + d1 + ['.'] + d2 + ['.'] + d3;
    FourFields(d0, d1, d2, d3, '.');
    NumeralRoundTrip(o[0], 10);
    NumeralRoundTrip(o[1], 10);
    NumeralRoundTrip(o[2], 10);
    NumeralRoundTrip(o[3], 10);
  }

  /** Four single fields joined by `sep` are four fields. */
  lemma FourFields(d0: string, d1: string, d2: string, d3: string, sep: char)
    requires Fields(d0, sep) == [d0] && Fields(d1, sep) == [d1]
    requires Fields(d2, sep) == [d2] && Fields(d3, sep) == [d3]
    ensures Fields(d0 + [sep] + d1 + [sep] + d2 + [sep] + d3, sep) == [d0, d1, d2, d3]
  {
    FieldsJoin(d0, d1, sep);
    FieldsJoin(d0 + [sep] + d1, d2, sep);
    FieldsJoin(d0 + [sep] + d1 + [sep] + d2, d3, sep);
  }

  /** The hexadecimal text of each group. */
  function Hexes(g: seq<u16>): (h: seq<string>)
    ensures |h| == |g|
    ensures forall i :: 0 <= i < |g| ==> h[i] == Hex(g[i])
  {
    if g == [] then [] else [Hex(g[0])] + Hexes(g[1..])
  }

  /** Reading the hexadecimal text of groups gives the groups back. */
  lemma HexesRoundTrip(g: seq<u16>)
    ensures Values(Hexes(g), 16) == g
  {
    forall i | 0 <= i < |g|
      ensures NumeralValue(Hex(g[i]), 16) == g[i]
    {
      NumeralRoundTrip(g[i], 16);
    }
  }

  /** The fields of the groups' text: one per group, or one empty field. */
  lemma {:induction false} GroupsFields(g: seq<u16>)
    ensures Fields(Groups(g), ':') == if g == [] then [[]] else Hexes(g)
    decreases |g|
  {
    if g != [] {
      NumeralFields(g[0], 16);
      var x, r := Hex(g[0]), g[1..];
      if r == [] {
        assert Groups(g) == x;
      } else {
        var y := Groups(r);
        GroupsCons(g);
        FieldsJoin(x, y, ':');
        GroupsFields(r);
      }
    }
  }

  /** The groups' text is the first group, ':' and the text of the others. */
  lemma GroupsCons(g: seq<u16>)
    requires |g| >= 2
    ensures Groups(g) == Hex(g[0]) + [':'] + Groups(g[1..])
  {
    var r := g[1..];
    var x, y := Hex(r[0]), ColonGroups(r[1..]);
    assert ColonGroups(r) == [':'] + x + y;
    assert Groups(r) == x + y;
    AppendAssoc([':'], x, y);
    AppendAssoc(Hex(g[0]), [':'], x + y);
  }

  /** Index of the first empty field, or the number of fields. */
  function FirstEmpty(f: seq<string>): (i: nat)
    ensures i <= |f|
    ensures forall k :: 0 <= k < i ==> f[k] != []
    ensures i < |f| ==> f[i] == []
  {
    if f == [] || f[0] == [] then 0 else 1 + FirstEmpty(f[1..])
  }

  /** The non-empty fields, in order. */
  function NonEmpty(f: seq<string>): (r: seq<string>)
    ensures forall k :: 0 <= k < |r| ==> r[k] != []
  {
    if f == [] then []
    else if f[0] == [] then NonEmpty(f[1..])
    else [f[0]] + NonEmpty(f[1..])
  }

  /** Dropping empty fields distributes over concatenation. */
  lemma {:induction false} NonEmptyAppend(a: seq<string>, b: seq<string>)
    ensures NonEmpty(a + b) == NonEmpty(a) + NonEmpty(b)
    decreases |a|
  {
    if a != [] {
      var ab := a + b;
      assert ab[0] == a[0] && ab[1..] == a[1..] + b;
      NonEmptyAppend(a[1..], b);
      if a[0] != [] {
        assert [a[0]] + (NonEmpty(a[1..]) + NonEmpty(b))
          == [a[0]] + NonEmpty(a[1..]) + NonEmpty(b);
      }
    } else {
      assert a + b == b;
    }
  }

  /** The text of groups holds no empty field. */
  lemma {:induction false} NonEmptyHexes(g: seq<u16>)
    ensures NonEmpty(Hexes(g)) == Hexes(g)
    decreases |g|
  {
    if g != [] {
      assert Hexes(g)[1..] == Hexes(g[1..]);
      NonEmptyHexes(g[1..]);
    }
  }

  /** The first empty field after fields that are all non-empty. */
  lemma {:induction false} FirstEmptyAfter(a: seq<string>, b: seq<string>)
    requires forall k :: 0 <= k < |a| ==> a[k] != []
    requires b != [] && b[0] == []
    ensures FirstEmpty(a + b) == |a|
    decreases |a|
  {
    if a != [] {
      assert (a + b)[1..] == a[1..] + b;
      FirstEmptyAfter(a[1..], b);
    }
  }

  /** `n` zero groups. */
  function Zeros(n: int): (z: seq<nat>)
    ensures |z| == if n > 0 then n else 0
    ensures forall k :: 0 <= k < |z| ==> z[k] == 0
  {
    seq(if n > 0 then n else 0, _ => 0)
  }

  /**
   * How a dialer reads IPv6 text in hexadecimal groups: the fields between
   * ':' in hexadecimal, where an empty field (`::`) stands for as many
   * zero groups as make eight in all.
   */
  function Ipv6Read(s: string): seq<nat>
  {
    var f := Fields(s, ':');
    var i := FirstEmpty(f);
    if i == |f| then Values(f, 16)
    else
      var head := f[..i];
      var tail := NonEmpty(f[i + 1..]);
      Values(head, 16) + Zeros(8 - |head| - |tail|) + Values(tail, 16)
  }

  /** Eight groups printed without compression read back as themselves. */
  lemma PlainGroupsRoundTrip(g: seq<u16>)
    requires |g| == 8
    ensures Ipv6Read(Groups(g)) == g
  {
    GroupsFields(g);
    HexesRoundTrip(g);
  }

  /** The fields of the text of some groups: one empty field when there are none. */
  function GroupFields(g: seq<u16>): seq<string>
  {
    if g == [] then [[]] else Hexes(g)
  }

  /** `::` between two runs of groups is one empty field between their fields. */
  lemma CompressedFields(h: seq<u16>, t: seq<u16>)
    ensures Fields(Groups(h) + "::" + Groups(t), ':') == GroupFields(h) + [[]] + GroupFields(t)
  {
    var g1, g2 := Groups(h), Groups(t);
    assert g1 + "::" + g2 == g1 + [':', ':'] + g2;
    DoubleSepFields(g1, g2, ':');
    GroupsFields(h);
    GroupsFields(t);
  }

  /** Two separators in a row leave one empty field between. */
  lemma DoubleSepFields(a: string, b: string, sep: char)
    ensures Fields(a + [sep, sep] + b, sep) == Fields(a, sep) + [[]] + Fields(b, sep)
  {
    assert a + [sep, sep] + b == a + [sep] + ([] + [sep] + b);
    FieldsJoin(a, [] + [sep] + b, sep);
    FieldsJoin([], b, sep);
    assert Fields([], sep) == [[]];
  }

  /**
   * In the fields of compressed text the first empty field follows the
   * head's groups, and the non-empty fields after it are the tail's.
   */
  lemma CompressedLayout(h: seq<u16>, t: seq<u16>, f: seq<string>)
    requires f == GroupFields(h) + [[]] + GroupFields(t)
    ensures FirstEmpty(f) == |h| < |f| && f[..|h|] == Hexes(h) && NonEmpty(f[|h| + 1..]) == Hexes(t)
  {
    NonEmptyHexes(t);
    assert NonEmpty(GroupFields(t)) == Hexes(t);
    if h == [] {
      LayoutWithoutHead(GroupFields(t));
    } else {
      NonEmptyHexes(h);
      LayoutWithHead(Hexes(h), GroupFields(t));
    }
  }

  /** Text starting with `::`: empty fields first. */
  lemma LayoutWithoutHead(p: seq<string>)
    ensures var f := [[]] + [[]] + p;
      FirstEmpty(f) == 0 && NonEmpty(f[1..]) == NonEmpty(p)
  {
    var f: seq<string> := [[]] + [[]] + p;
    assert f[1..] == [[]] + p;
    NonEmptyAppend([[]], p);
    assert NonEmpty([[]]) == [];
  }

  /** Text with groups before `::`: the first empty field is the `::`. */
  lemma LayoutWithHead(x: seq<string>, p: seq<string>)
    requires forall k :: 0 <= k < |x| ==> x[k] != []
    ensures var f := x + [[]] + p;
      FirstEmpty(f) == |x| && f[..|x|] == x && f[|x| + 1..] == p
  {
    var f := x + [[]] + p;
    assert f == x + ([[]] + p);
    FirstEmptyAfter(x, [[]] + p);
  }

  /** Compressed text reads back as head, zero groups up to eight, tail. */
  lemma CompressedRead(h: seq<u16>, t: seq<u16>)
    ensures Ipv6Read(Groups(h) + "::" + Groups(t)) == h + Zeros(8 - |h| - |t|) + t
  {
    CompressedFieldsRead(h, t);
    HexesRoundTrip(h);
    HexesRoundTrip(t);
  }

  /** Compressed text reads as the values of the head's fields, zeros, the tail's. */
  lemma CompressedFieldsRead(h: seq<u16>, t: seq<u16>)
    ensures Ipv6Read(Groups(h) + "::" + Groups(t))
      == Values(Hexes(h), 16) + Zeros(8 - |h| - |t|) + Values(Hexes(t), 16)
  {
    var text := Groups(h) + "::" + Groups(t);
    CompressedFields(h, t);
    CompressedLayout(h, t, Fields(text, ':'));
    ReadWithGap(text, Hexes(h), Hexes(t), 8 - |h| - |t|);
  }

  /** Text whose fields have an empty one reads as head, zero groups, tail. */
  lemma ReadWithGap(s: string, head: seq<string>, tail: seq<string>, gap: int)
    requires var f := Fields(s, ':');
      FirstEmpty(f) == |head| < |f| && f[..|head|] == head && NonEmpty(f[|head| + 1..]) == tail
    requires gap == 8 - |head| - |tail|
    ensures Ipv6Read(s) == Values(head, 16) + Zeros(gap) + Values(tail, 16)
  {
  }

  /**
   * Eight groups printed with the zero groups `g[start..start + len]`
   * compressed to `::` read back as themselves.
   */
  lemma CompressedRoundTrip(g: seq<u16>, start: nat, len: nat)
    requires |g| == 8 && start + len <= 8
    requires forall k :: start <= k < start + len ==> g[k] == 0
    ensures Ipv6Read(Groups(g[..start]) + "::" + Groups(g[start + len..])) == g
  {
    var h, t := g[..start], g[start + len..];
    CompressedRead(h, t);
    assert Zeros(8 - |h| - |t|) == g[start..start + len];
    assert g == h + g[start..start + len] + t;
  }

  /**
   * The text of every IPv6 address that is not IPv4-mapped reads back as
   * its eight groups, compressed or not.
   */
  lemma Ipv6TextRoundTrip(g: seq<u16>)
    requires |g| == 8 && g[..6] != [0, 0, 0, 0, 0, 0xffff]
    ensures Ipv6Read(Ipv6Text(g)) == g
  {
    var (start, len) := LongestZeroRun(g);
    if len > 1 {
      var text := Groups(g[..start]) + "::" + Groups(g[start + len..]);
      assert Ipv6Text(g) == text;
      CompressedRoundTrip(g, start, len);
    } else {
      assert Ipv6Text(g) == Groups(g);
      PlainGroupsRoundTrip(g);
    }
  }

  /** A string cut at its last ':', or the absence of any ':'. */
  datatype Split = NoColon | Split(host: string, port: string)

  /**
   * How a dialer reads a destination string: the host is everything
   * before the last ':' and the port everything after it.
   */
  function SplitAtLastColon(s: string): (r: Split)
  {
    if s == [] then NoColon
    else if s[|s| - 1] == ':' then Split(s[..|s| - 1], [])
    else match SplitAtLastColon(s[..|s| - 1])
      case NoColon => NoColon
      case Split(h, t) => Split(h, t + [s[|s| - 1]])
  }

  /** Cutting `h:t` at its last ':' gives back `h` and `t` when `t` has no ':'. */
  lemma {:induction false} SplitAfterLastColon(h: string, t: string)
    requires forall i :: 0 <= i < |t| ==> t[i] != ':'
    ensures SplitAtLastColon(h + ":" + t) == Split(h, t)
    decreases |t|
  {
    var s := h + ":" + t;
    if t == [] {
      assert s[..|s| - 1] == h;
    } else {
      var t' := t[..|t| - 1];
      assert s[..|s| - 1] == h + ":" + t';
      SplitAfterLastColon(h, t');
      assert t' + [t[|t| - 1]] == t;
    }
  }

  /**
   * The destination string determines the destination's host text and
   * port: a dialer that cuts it at its last ':' and reads the decimal
   * after it recovers exactly the host text and the port, whatever
   * colons the host text itself contains (IPv6).
   */
  lemma DestTextRoundTrip(d: Dest)
    requires d.Valid()
    ensures SplitAtLastColon(DestText(d)) == Split(HostText(d.host), Decimal(d.port))
    ensures NumeralValue(Decimal(d.port), 10) == d.port
  {
    var t := Decimal(d.port);
    assert forall i :: 0 <= i < |t| ==> IsDigitIn(t[i], 10);
    SplitAfterLastColon(HostText(d.host), t);
    NumeralRoundTrip(d.port, 10);
  }
}
