/** Frames written out field by field, as a sender would: IPv4 headers of 5 to 15 words with any
    contents, and the TCP and UDP headers behind them. What a program reads is compared with these. */
module Printing {
  import opened Bytes
  import opened Xdp

  /** An IPv4 header: `front` is everything from the type of service to the fragment offset. */
  datatype Ipv4 = Ipv4(version: nat, front: seq<Byte>, ttl: Byte, check: Word, src: DWord, dst: DWord,
                       options: seq<Byte>)
  {
    predicate Ok() {
      version < 16 && |front| == 7 && |options| % 4 == 0 && |options| <= 40
    }
  }

  function PrintIp(macs: seq<Byte>, ip: Ipv4, protocol: Byte, transport: seq<Byte>): (f: Frame)
    requires |macs| == 12 && ip.Ok()
    ensures |f| == 34 + |ip.options| + |transport|
  {
    macs + [0x08, 0x00, 0x10 * ip.version + 5 + |ip.options| / 4] + ip.front + [ip.ttl, protocol] + PutBe16(ip.check)
    + PutBe32(ip.src) + PutBe32(ip.dst) + ip.options + transport
  }

  /** Where the fields of a printed frame are found. */
  lemma PrintedIp(macs: seq<Byte>, ip: Ipv4, protocol: Byte, transport: seq<Byte>)
    requires |macs| == 12 && ip.Ok()
    ensures var f := PrintIp(macs, ip, protocol, transport);
      && f[12] == 0x08 && f[13] == 0x00 && IpHeaderLength(f) == 20 + |ip.options| && f[23] == protocol
      && Be32(f, 26) == ip.src && Be32(f, 30) == ip.dst
      && f[14 + IpHeaderLength(f)..] == transport
  {
    hide PutBe16, PutBe32, Be32;
    var f := PrintIp(macs, ip, protocol, transport);
    assert f[26..30] == PutBe32(ip.src) && f[30..34] == PutBe32(ip.dst);
    SameWord32(f, 26);
    SameWord32(f, 30);
    IhlNibble(ip.version, 5 + |ip.options| / 4);
  }

  /** The EtherType field read as a word. */
  lemma EtherTypeBytes(f: Frame)
    requires |f| >= 14
    ensures EtherType(f) == ETH_P_IP <==> f[12] == 0x08 && f[13] == 0x00
    ensures EtherType(f) == ETH_P_ARP <==> f[12] == 0x08 && f[13] == 0x06
  {
  }

  lemma IhlNibble(version: nat, words: nat)
    requires words < 16
    ensures (0x10 * version + words) % 0x10 == words
  {
  }

  lemma SameWord16(f: Frame, i: nat)
    requires i + 2 <= |f|
    ensures Be16(f, i) == Be16(f[i..i + 2], 0)
  {
  }

  lemma SameWord32(f: Frame, i: nat)
    requires i + 4 <= |f|
    ensures Be32(f, i) == Be32(f[i..i + 4], 0)
  {
  }

  /** A word behind the first `from` bytes. */
  lemma WordBehind(f: Frame, from: nat, i: nat)
    requires from + i + 2 <= |f|
    ensures Be16(f, from + i) == Be16(f[from..], i)
  {
  }

  /** A TCP or UDP header starts with its two ports. */
  function PrintPorts(sport: Word, dport: Word, rest: seq<Byte>): (s: seq<Byte>)
    ensures |s| == 4 + |rest| && Be16(s, 0) == sport && Be16(s, 2) == dport && s[4..] == rest
  {
    PutBe16(sport) + PutBe16(dport) + rest
  }

  /** A TCP header: `middle` holds both sequence numbers, `low` the reserved bits beside the data
      offset, `back` everything from the flags to the urgent pointer. */
  datatype Tcp = Tcp(sport: Word, dport: Word, middle: seq<Byte>, low: nat, back: seq<Byte>, options: seq<Byte>) {
    predicate Ok() {
      |middle| == 8 && low < 16 && |back| == 7 && |options| % 4 == 0 && |options| <= 40
    }
  }

  function PrintTcp(tcp: Tcp, payload: seq<Byte>): (s: seq<Byte>)
    requires tcp.Ok()
    ensures |s| == 20 + |tcp.options| + |payload|
    ensures Be16(s, 0) == tcp.sport && Be16(s, 2) == tcp.dport
    ensures s[12] == 0x10 * (5 + |tcp.options| / 4) + tcp.low && s[20 + |tcp.options|..] == payload
  {
    var rest := tcp.middle + [0x10 * (5 + |tcp.options| / 4) + tcp.low] + tcp.back + tcp.options + payload;
    assert rest[8] == 0x10 * (5 + |tcp.options| / 4) + tcp.low && rest[16 + |tcp.options|..] == payload;
    var s := PrintPorts(tcp.sport, tcp.dport, rest);
    assert s[12] == s[4..][8] && s[20 + |tcp.options|..] == s[4..][16 + |tcp.options|..];
    s
  }
}
