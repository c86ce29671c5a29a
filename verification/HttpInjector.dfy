/** The program that answers an HTTP request in place: it resizes the frame, turns it round,
    installs a fixed response text and computes both Internet checksums again. */
module HttpInjector {
  import opened Bytes
  import opened OnesComplement
  import opened Xdp

  const HTTP_PORT: Word := 80

  // ---- the request

  function TotalLength(f: Frame): Word
    requires |f| >= 34
  {
    Be16(f, 16)
  }

  /** Bytes in the TCP header: its data-offset nibble counts 32-bit words. */
  function TcpHeaderLength(f: Frame): nat
    requires |f| >= 54
  {
    var offset: int := f[46];
    offset / 0x10 * 4
  }

  /** The flag byte of the TCP header: CWR, ECE, URG, ACK, PSH, RST, SYN, FIN from the top bit. */
  function Flags(f: Frame): int
    requires |f| >= 54
  {
    f[47]
  }

  predicate HasAck(f: Frame)
    requires |f| >= 54
  {
    Flags(f) / 0x10 % 2 == 1
  }

  /** RST, SYN or FIN. */
  predicate OpensOrCloses(f: Frame)
    requires |f| >= 54
  {
    Flags(f) / 4 % 2 == 1 || Flags(f) / 2 % 2 == 1 || Flags(f) % 2 == 1
  }

  function Sequence(f: Frame): DWord
    requires |f| >= 54
  {
    Be32(f, 38)
  }

  function Acknowledged(f: Frame): DWord
    requires |f| >= 54
  {
    Be32(f, 42)
  }

  /** A data segment of an established connection to port 80, without IP options. */
  predicate Accepted(f: Frame) {
    && |f| >= 54
    && EtherType(f) == ETH_P_IP
    && IpHeaderLength(f) == 20
    && IpProtocol(f) == IPPROTO_TCP
    && Be16(f, 36) == HTTP_PORT
    && HasAck(f) && !OpensOrCloses(f)
    && 20 <= TcpHeaderLength(f) <= |f| - 34
    && 20 + TcpHeaderLength(f) < TotalLength(f)
  }

  /** The filter in terms of bytes: IPv4 with a header of five words, TCP to port 80, ACK set, SYN, RST
      and FIN clear, a TCP header of 5 to 15 words inside the frame, and data behind it. */
  lemma AcceptedBytes(f: Frame)
    ensures Accepted(f) <==>
            && |f| >= 54 && f[12] == 0x08 && f[13] == 0x00 && f[14] % 0x10 == 5 && f[23] == 6
            && f[36] == 0 && f[37] == 80
            && (f[47] as int / 0x10) % 2 == 1 && f[47] % 8 == 0
            && 5 <= f[46] / 0x10 && 34 + f[46] / 0x10 * 4 <= |f|
            && 20 + f[46] / 0x10 * 4 < 0x100 * f[16] as int + f[17] as int
  {
    if |f| >= 54 {
      FlagBits(f[47]);
    }
  }

  lemma FlagBits(flags: Byte)
    ensures flags % 8 == 0 <==> !(flags / 4 % 2 == 1 || flags / 2 % 2 == 1 || flags % 2 == 1)
  {
    var half, quarter := flags / 2, flags / 2 / 2;
    Halves(flags);
    Halves(half);
    Halves(quarter);
    Quarter(flags);
    Eighth(flags);
  }

  lemma Halves(n: nat)
    ensures n == 2 * (n / 2) + n % 2 && (n % 2 == 0 || n % 2 == 1)
  {
  }

  lemma Quarter(n: nat)
    ensures n / 4 == n / 2 / 2
  {
  }

  lemma Eighth(n: nat)
    ensures n % 8 == n % 2 + 2 * (n / 2 % 2) + 4 * (n / 2 / 2 % 2)
  {
    var eighth := n / 2 / 2 / 2;
    assert n == 8 * eighth + (n % 2 + 2 * (n / 2 % 2) + 4 * (n / 2 / 2 % 2));
    Remainder(n, eighth, n % 2 + 2 * (n / 2 % 2) + 4 * (n / 2 / 2 % 2));
  }

  lemma Remainder(n: nat, eighth: nat, low: nat)
    requires n == 8 * eighth + low && low < 8
    ensures n % 8 == low
  {
  }

  function PayloadLength(f: Frame): nat
    requires Accepted(f)
  {
    TotalLength(f) - 20 - TcpHeaderLength(f)
  }

  // ---- the reply

  /** `doff = 5` in the high nibble; the reserved bits stay. */
  function FiveWords(b: Byte): Byte {
    var offset: int := b;
    0x50 + offset % 0x10
  }

  /** `ack = psh = 1` and `syn = fin = rst = 0`; the three high flags stay. */
  function PushAck(b: Byte): Byte {
    var flags: int := b;
    flags / 0x20 * 0x20 + 0x18
  }

  /** A TCP header turned round: ports swapped, SEQ from ACK, ACK past the payload, a data offset
      of five words, PSH and ACK set, SYN, FIN and RST clear, everything else kept. */
  function TurnedRound(t: seq<Byte>, payload: nat): (r: seq<Byte>)
    requires |t| == 20
    ensures |r| == 20
  {
    t[2..4] + t[..2] + t[8..12] + PutBe32((Be32(t[4..8], 0) + payload) % 0x1_0000_0000)
    + [FiveWords(t[12]), PushAck(t[13])] + t[14..]
  }

  /** A checksum field while the checksum is being computed. */
  const BLANK: seq<Byte> := [0, 0]

  /** The 20-byte IPv4 header of the reply, carrying the bytes `check`. */
  function ReplyIp(f: Frame, R: seq<Byte>, check: seq<Byte>): (h: seq<Byte>)
    requires |f| >= 54 && |R| <= 65495 && |check| == 2
    ensures |h| == 20
  {
    f[14..16] + PutBe16(40 + |R|) + f[18..24] + check + f[30..34] + f[26..30]
  }

  /** The TCP segment of the reply to a request with `payload` data bytes, carrying the bytes `check`. */
  function ReplyTcp(f: Frame, payload: nat, R: seq<Byte>, check: seq<Byte>): (s: seq<Byte>)
    requires |f| >= 54 && |check| == 2
    ensures |s| == 20 + |R|
  {
    var t := TurnedRound(f[34..54], payload);
    t[..16] + check + t[18..] + R
  }

  /** The pseudo-header of section 3.1 of RFC 9293: addresses, zero, protocol, segment length. */
  function PseudoHeader(addresses: seq<Byte>, length: Word): (r: seq<Byte>)
    ensures |r| == |addresses| + 4
  {
    addresses + [0, IPPROTO_TCP] + PutBe16(length)
  }

  /** The four 32-bit words the program sums instead. */
  function PseudoWords(addresses: seq<Byte>, length: DWord): (r: seq<Byte>)
    ensures |r| == |addresses| + 8
  {
    addresses + [0, 0, 0, IPPROTO_TCP] + PutBe32(length)
  }

  /** The checksums of the reply, computed from scratch. */
  ghost function IpCheck(f: Frame, R: seq<Byte>): Word
    requires |f| >= 54 && |R| <= 65495
  {
    Checksum(ReplyIp(f, R, BLANK))
  }

  ghost function TcpCheck(f: Frame, payload: nat, R: seq<Byte>): Word
    requires |f| >= 54 && |R| <= 65495
  {
    Checksum(PseudoHeader(f[30..34] + f[26..30], 20 + |R|) + ReplyTcp(f, payload, R, BLANK))
  }

  /** The frame that answers `f`, a request with `payload` data bytes, with the text `R`. */
  ghost function Reply(f: Frame, payload: nat, R: seq<Byte>): (r: Frame)
    requires |f| >= 54 && |R| <= 65495
    ensures |r| == 54 + |R|
  {
    f[6..12] + f[..6] + f[12..14]
    + ReplyIp(f, R, PutBe16(IpCheck(f, R)))
    + ReplyTcp(f, payload, R, PutBe16(TcpCheck(f, payload, R)))
  }

  // ---- kernel helpers, known only by their contracts

  /** What the kernel grants of the four helper calls of one run, in program order. */
  datatype Grants = Grants(resize: bool, ipSum: bool, pseudoSum: bool, segmentSum: bool)

  /** A 32-bit one's-complement accumulation of little-endian words, in any representation. */
  ghost predicate IsCsum(r: int, to: seq<Byte>, seed: nat) {
    && 0 <= r < 0x1_0000_0000
    && Congruent(r, seed + SumLE(to))
    && (r == 0 <==> seed + SumLE(to) == 0)
  }

  /** `bpf_csum_diff(NULL, 0, to, size, seed)`: refuses with a negative number, or accumulates. */
  method BpfCsumDiff(to: seq<Byte>, seed: nat, granted: bool) returns (r: int)
    requires seed < 0x1_0000_0000
    ensures r >= 0 <==> granted
    ensures r < 0x1_0000_0000
    ensures r < 0 || IsCsum(r, to, seed)
  {
    if !granted {
      return -22;
    }
    r := seed;
    var rest := to;
    Shifted(seed + SumLE(to), seed + SumLE(to), 0);
    while rest != []
      invariant 0 <= r < 0x1_0000_0000
      invariant Congruent(r + SumLE(rest), seed + SumLE(to))
      invariant r + SumLE(rest) == 0 <==> seed + SumLE(to) == 0
      decreases |rest|
    {
      ghost var before := r + SumLE(rest);
      if |rest| == 1 {
        r, rest := r + rest[0], [];
      } else {
        r, rest := r + Le16(rest, 0), rest[2..];
      }
      ghost var k := Times(before, seed + SumLE(to));
      if r >= 0x1_0000_0000 {
        r := r - 0x1_0000_0000 + 1;
        Shifted(r + SumLE(rest), seed + SumLE(to), k - 0x1_0001);
      }
    }
  }

  /** `bpf_xdp_adjust_tail`: refuses and changes nothing, as it must when no Ethernet header would be
      left, or keeps the common prefix. */
  method BpfXdpAdjustTail(ctx: XdpMd, delta: int, granted: bool) returns (rc: int)
    modifies ctx
    ensures rc >= 0 <==> granted && old(ctx.packet).Length + delta >= ETH_HLEN
    ensures rc < 0 ==> ctx.packet == old(ctx.packet)
    ensures rc >= 0 ==>
      && fresh(ctx.packet)
      && ctx.packet.Length == old(ctx.packet).Length + delta >= ETH_HLEN
      && forall i | 0 <= i < ctx.packet.Length && i < old(ctx.packet).Length :: ctx.packet[i] == old(ctx.packet[i])
  {
    var grown := ctx.packet.Length + delta;
    if grown < ETH_HLEN {
      return -22;
    }
    if !granted {
      return -22;
    }
    var from := ctx.packet;
    ctx.packet := new Byte[grown](i => 0);
    for i := 0 to if grown < from.Length then grown else from.Length
      invariant fresh(ctx.packet) && ctx.packet != from && ctx.packet.Length == grown
      invariant from[..] == old(ctx.packet[..])
      invariant forall j | 0 <= j < i :: ctx.packet[j] == from[j]
      modifies ctx.packet
    {
      ctx.packet[i] := from[i];
    }
    return 0;
  }

  // ---- the steps of the rewrite, in program order

  method SwapEthernet(packet: array<Byte>)
    requires packet.Length >= 54
    modifies packet
    ensures packet[..] == old(packet[6..12] + packet[..6] + packet[12..])
  {
    var tmpMac := packet[6..12];
    Store(packet, 6, packet[..6]);
    Store(packet, 0, tmpMac);
    assert packet[..] == old(packet[6..12] + packet[..6] + packet[12..]);
  }

  method SwapAddresses(packet: array<Byte>)
    requires packet.Length >= 54
    modifies packet
    ensures packet[..] == old(packet[..26] + packet[30..34] + packet[26..30] + packet[34..])
  {
    var tmpIp := packet[26..30];
    Store(packet, 26, packet[30..34]);
    Store(packet, 30, tmpIp);
    assert packet[..] == old(packet[..26] + packet[30..34] + packet[26..30] + packet[34..]);
  }

  method SwapSequence(packet: array<Byte>, payload: nat)
    requires packet.Length >= 54
    modifies packet
    ensures packet[..] == old(packet[..38] + packet[42..46]
                              + PutBe32((Be32(packet[38..42], 0) + payload) % 0x1_0000_0000) + packet[46..])
  {
    var oldSeq, oldAck := packet[38..42], packet[42..46];
    Store(packet, 38, oldAck);
    var ackSeq := PutBe32((Be32(oldSeq, 0) + payload) % 0x1_0000_0000);
    Store(packet, 42, ackSeq);
    assert packet[..] == old(packet[..38] + packet[42..46]) + ackSeq + old(packet[46..]);
  }

  method SwapPorts(packet: array<Byte>)
    requires packet.Length >= 54
    modifies packet
    ensures packet[..] == old(packet[..34] + packet[36..38] + packet[34..36] + packet[38..])
  {
    var tmpPort := packet[34..36];
    Store(packet, 34, packet[36..38]);
    Store(packet, 36, tmpPort);
    assert packet[..] == old(packet[..34] + packet[36..38] + packet[34..36] + packet[38..]);
  }

  method SetOffsetAndFlags(packet: array<Byte>)
    requires packet.Length >= 54
    modifies packet
    ensures packet[..] == old(packet[..46] + [FiveWords(packet[46]), PushAck(packet[47])] + packet[48..])
  {
    packet[46] := FiveWords(packet[46]);
    packet[47] := PushAck(packet[47]);
    assert packet[..] == old(packet[..46] + [FiveWords(packet[46]), PushAck(packet[47])] + packet[48..]);
  }

  method TurnTcp(packet: array<Byte>, payload: nat)
    requires packet.Length >= 54
    modifies packet
    ensures packet[..] == old(packet[..34] + TurnedRound(packet[34..54], payload) + packet[54..])
  {
    hide TurnedRound, PutBe32, Be32, FiveWords, PushAck;
    ghost var before := packet[..];
    SwapSequence(packet, payload);
    ghost var s := packet[..];
    SwapPorts(packet);
    ghost var p := packet[..];
    SetOffsetAndFlags(packet);
    TurnedInPlace(before, s, p, packet[..], s[42..46], payload);
  }

  /** The three field groups, written one after the other, make the header turned round. */
  lemma TurnedInPlace(f: Frame, s: Frame, p: Frame, r: Frame, ack: seq<Byte>, payload: nat)
    requires |f| >= 54 && ack == PutBe32((Be32(f[38..42], 0) + payload) % 0x1_0000_0000)
    requires s == f[..38] + f[42..46] + ack + f[46..]
    requires p == s[..34] + s[36..38] + s[34..36] + s[38..]
    requires r == p[..46] + [FiveWords(p[46]), PushAck(p[47])] + p[48..]
    ensures r == f[..34] + TurnedRound(f[34..54], payload) + f[54..]
  {
    hide PutBe32, Be32, FiveWords, PushAck;
    HeaderFields(f);
    PortsSwapped(f, s, p, ack);
    FlagsSet(p, r, f[..34] + f[36..38] + f[34..36] + f[42..46] + ack, f[46..], [FiveWords(f[46]), PushAck(f[47])]);
    assert f[46..][2..] == f[48..];
  }

  lemma SubSlice(f: Frame, i: nat, j: nat)
    requires |f| >= 54 && i <= j <= 20
    ensures f[34..54][i..j] == f[34 + i..34 + j]
  {
    var t, s := f[34..54], f[34 + i..34 + j];
    assert |t[i..j]| == |s|;
    forall k | 0 <= k < |s|
      ensures t[i..j][k] == s[k]
    {
      assert t[i..j][k] == t[i + k] == f[34 + i + k];
    }
  }

  /** The fields of the TCP header inside the frame. */
  lemma HeaderFields(f: Frame)
    requires |f| >= 54
    ensures var t := f[34..54];
      && t[..2] == f[34..36] && t[2..4] == f[36..38] && t[4..8] == f[38..42] && t[8..12] == f[42..46]
      && t[12] == f[46] && t[13] == f[47] && t[14..] + f[54..] == f[48..]
  {
    SubSlice(f, 0, 2);
    SubSlice(f, 2, 4);
    SubSlice(f, 4, 8);
    SubSlice(f, 8, 12);
    SubSlice(f, 14, 20);
    assert f[48..54] + f[54..] == f[48..];
  }

  lemma PortsSwapped(f: Frame, s: Frame, p: Frame, ack: seq<Byte>)
    requires |f| >= 54 && |ack| == 4
    requires s == f[..38] + f[42..46] + ack + f[46..]
    requires p == s[..34] + s[36..38] + s[34..36] + s[38..]
    ensures p == f[..34] + f[36..38] + f[34..36] + f[42..46] + ack + f[46..]
  {
    assert s[..34] == f[..34] && s[36..38] == f[36..38] && s[34..36] == f[34..36];
    assert s[38..] == f[42..46] + ack + f[46..];
  }

  lemma FlagsSet(p: Frame, r: Frame, head: Frame, tail: Frame, flags: seq<Byte>)
    requires |head| == 46 && |tail| >= 2 && |flags| == 2 && p == head + tail
    requires r == p[..46] + flags + p[48..]
    ensures r == head + flags + tail[2..]
  {
    assert p[..46] == head && p[48..] == tail[2..];
  }

  method InstallResponse(packet: array<Byte>, R: seq<Byte>)
    requires |R| <= 65495 && packet.Length >= 54 + |R|
    modifies packet
    ensures packet[..] == old(packet[..16]) + PutBe16(40 + |R|) + old(packet[18..54]) + R + old(packet[54 + |R|..])
  {
    hide PutBe16;
    var length := PutBe16(40 + |R|);
    Store(packet, 16, length);
    assert packet[..54] == old(packet[..16]) + length + old(packet[18..54]);
    assert packet[54..] == old(packet[54..]);
    ghost var head := packet[..54];
    Store(packet, 54, R);
    assert packet[..54] == head;
    assert packet[54..] == R + old(packet[54 + |R|..]);
    assert packet[..] == old(packet[..16]) + PutBe16(40 + |R|) + old(packet[18..54]) + R + old(packet[54 + |R|..]);
  }

  function CheckBlanked(s: seq<Byte>, i: nat): (r: seq<Byte>)
    requires i + 2 <= |s|
    ensures |r| == |s|
  {
    s[..i] + BLANK + s[i + 2..]
  }

  lemma BlankInside(f: Frame, from: nat, to: nat, at: nat)
    requires from <= at && at + 2 <= to <= |f|
    ensures Splice(f, at, BLANK)[from..to] == CheckBlanked(f[from..to], at - from)
  {
  }

  /** What the helper accumulates, folded and stored by a little-endian host, is the checksum. */
  lemma StoredChecksum(be: nat, le: nat, r: nat)
    requires Congruent(r, le) && Congruent(be, 0x100 * le)
    requires (r == 0 <==> le == 0) && (be == 0 <==> le == 0)
    ensures PutLe16(0xffff - Fold(r)) == PutBe16(0xffff - Fold(be))
  {
    hide SumBE, SumLE, Fold;
    Shifted(be, 0x100 * r, Times(be, 0x100 * le) - 0x100 * Times(r, le));
    FoldByteOrder(be, r);
  }

  /** Blanking a word and then writing it leaves the rest of the frame. */
  lemma BlankedThenWritten(f: Frame, at: nat, word: seq<Byte>)
    requires at + 2 <= |f| && |word| == 2
    ensures Splice(Splice(f, at, BLANK), at, word) == f[..at] + word + f[at + 2..]
  {
    hide Splice;
    var blanked := Splice(f, at, BLANK);
    var written := Splice(blanked, at, word);
    assert forall j | 0 <= j < |f| && !(at <= j < at + 2) :: written[j] == f[j];
    assert written[at] == written[at..at + 2][0] && written[at + 1] == written[at..at + 2][1];
  }

  /** The sum over the blanked header gives its checksum. */
  lemma SummedHeader(f: Frame, blanked: Frame, csum: nat)
    requires |f| >= 34 && blanked == Splice(f, 24, BLANK) && IsCsum(csum, blanked[14..34], 0)
    ensures PutLe16(0xffff - Fold(csum)) == PutBe16(Checksum(CheckBlanked(f[14..34], 10)))
  {
    hide SumBE, SumLE, Fold, PutBe16, PutLe16, Congruent, CheckBlanked, Splice;
    BlankInside(f, 14, 34, 24);
    var header := blanked[14..34];
    SumByteOrder(header);
    StoredChecksum(SumBE(header), SumLE(header), csum);
  }

  method StoreIpChecksum(packet: array<Byte>, kernel: Grants) returns (ok: bool)
    requires packet.Length >= 54
    modifies packet
    ensures ok <==> kernel.ipSum
    ensures ok ==> packet[..] == old(packet[..24])
                   + PutBe16(Checksum(CheckBlanked(old(packet[14..34]), 10))) + old(packet[26..])
  {
    hide SumBE, SumLE, Fold, PutBe16, PutLe16, Checksum, IsCsum, Congruent, CheckBlanked, Splice;
    ghost var f := packet[..];
    Store(packet, 24, BLANK);
    ghost var blanked := packet[..];
    var header := packet[14..34];
    assert header == blanked[14..34] && f[14..34] == old(packet[14..34]);
    var ipCsum := BpfCsumDiff(header, 0, kernel.ipSum);
    if ipCsum < 0 {
      return false;
    }
    var check := CsumFold(ipCsum);
    SummedHeader(f, blanked, ipCsum);
    Store(packet, 24, PutLe16(check));
    BlankedThenWritten(f, 24, PutLe16(check));
    assert f[..24] == old(packet[..24]) && f[26..] == old(packet[26..]);
    return true;
  }

  /** The 16 bytes the program sums weigh the same as the 12-byte pseudo-header. */
  lemma PseudoSums(addresses: seq<Byte>, length: Word)
    requires |addresses| == 8
    ensures SumBE(PseudoWords(addresses, length)) == SumBE(PseudoHeader(addresses, length))
  {
    hide SumBE, SumLE, Fold, PutBe16, PutBe32;
    WideWord(length);
    ZeroWord();
    assert [0, 0, 0, IPPROTO_TCP] == [0, 0] + [0, IPPROTO_TCP];
    PaddedSums(addresses, [0, IPPROTO_TCP], PutBe16(length), [0, 0]);
  }

  lemma PaddedSums(a: seq<Byte>, p: seq<Byte>, q: seq<Byte>, zeros: seq<Byte>)
    requires |a| == 8 && |p| == |q| == |zeros| == 2 && SumBE(zeros) == 0
    ensures SumBE(a + (zeros + p) + (zeros + q)) == SumBE(a + p + q)
  {
    hide SumBE, SumLE, Fold;
    SumAppend(a + (zeros + p), zeros + q);
    SumAppend(a, zeros + p);
    SumAppend(zeros, p);
    SumAppend(zeros, q);
    SumAppend(a + p, q);
    SumAppend(a, p);
  }

  lemma ZeroWord()
    ensures SumBE([0, 0]) == 0
  {
    var zeros: seq<Byte> := [0, 0];
    assert zeros[2..] == [];
  }

  /** `htonl` of a 16-bit number is `htons` of it after two zero bytes. */
  lemma WideWord(w: Word)
    ensures PutBe32(w) == [0, 0] + PutBe16(w)
  {
    assert w / 0x1_0000 == 0 && w % 0x1_0000 == w;
    assert PutBe16(0) == [0, 0];
  }

  /** The seed chained from the pseudo-header to the segment gives the segment's checksum. */
  lemma ChainedChecksum(addresses: seq<Byte>, segment: seq<Byte>, r1: nat, r2: nat)
    requires |addresses| == 8 && |segment| < 0x1_0000
    requires IsCsum(r1, PseudoWords(addresses, |segment|), 0) && IsCsum(r2, segment, r1)
    ensures PutLe16(0xffff - Fold(r2)) == PutBe16(Checksum(PseudoHeader(addresses, |segment|) + segment))
  {
    hide *;
    PseudoSums(addresses, |segment|);
    ChainedOver(PseudoHeader(addresses, |segment|), PseudoWords(addresses, |segment|), segment, r1, r2);
  }

  lemma ChainedOver(pseudo: seq<Byte>, words: seq<Byte>, segment: seq<Byte>, r1: nat, r2: nat)
    requires |pseudo| % 2 == 0 && |words| % 2 == 0 && SumBE(pseudo) == SumBE(words)
    requires IsCsum(r1, words, 0) && IsCsum(r2, segment, r1)
    ensures PutLe16(0xffff - Fold(r2)) == PutBe16(Checksum(pseudo + segment))
  {
    hide SumBE, SumLE, Fold, Congruent, PutBe16, PutLe16;
    SumAppend(pseudo, segment);
    SumAppend(words, segment);
    SumByteOrder(words + segment);
    ChainedSums(SumLE(words), SumLE(segment), r1, r2);
    StoredChecksum(SumBE(pseudo + segment), SumLE(words + segment), r2);
  }

  lemma ChainedSums(words: nat, segment: nat, r1: nat, r2: nat)
    requires Congruent(r1, words) && (r1 == 0 <==> words == 0)
    requires Congruent(r2, r1 + segment) && (r2 == 0 <==> r1 + segment == 0)
    ensures Congruent(r2, words + segment) && (r2 == 0 <==> words + segment == 0)
  {
    hide SumBE, SumLE, Fold;
    Shifted(r2, words + segment, Times(r2, r1 + segment) + Times(r1, words));
  }

  /** The checksum of the TCP segment in a frame, over the pseudo-header of its addresses. */
  ghost function SegmentCheck(f: Frame, respLen: nat): Word
    requires respLen <= 65495 && |f| >= 54 + respLen
  {
    Checksum(PseudoHeader(f[26..34], 20 + respLen) + CheckBlanked(f[34..54 + respLen], 16))
  }

  /** The sums over the blanked segment and its pseudo-header words give the segment's checksum. */
  lemma SummedSegment(f: Frame, blanked: Frame, respLen: nat, seed: nat, csum: nat)
    requires respLen <= 65495 && |f| >= 54 + respLen && blanked == Splice(f, 50, BLANK)
    requires IsCsum(seed, PseudoWords(blanked[26..34], 20 + respLen), 0)
    requires IsCsum(csum, blanked[34..54 + respLen], seed)
    ensures PutLe16(0xffff - Fold(csum)) == PutBe16(SegmentCheck(f, respLen))
  {
    hide SumBE, SumLE, Fold, PutBe16, PutLe16, PseudoHeader, PseudoWords, Checksum, IsCsum, CheckBlanked, Splice;
    BlankInside(f, 34, 54 + respLen, 50);
    assert blanked[26..34] == f[26..34];
    ChainedChecksum(f[26..34], blanked[34..54 + respLen], seed, csum);
  }

  method StoreTcpChecksum(packet: array<Byte>, respLen: nat, kernel: Grants) returns (ok: bool)
    requires respLen <= 65495 && packet.Length >= 54 + respLen
    modifies packet
    ensures ok <==> kernel.pseudoSum && kernel.segmentSum
    ensures ok ==> packet[..] == old(packet[..50]) + PutBe16(SegmentCheck(old(packet[..]), respLen)) + old(packet[52..])
  {
    hide SumBE, SumLE, Fold, PutBe16, PutLe16, PseudoHeader, PseudoWords, Checksum, SegmentCheck;
    hide IsCsum, Congruent, CheckBlanked, Splice;
    ghost var f := packet[..];
    Store(packet, 50, BLANK);
    ghost var blanked := packet[..];
    var addresses, segment := packet[26..34], packet[34..54 + respLen];
    assert addresses == blanked[26..34] && segment == blanked[34..54 + respLen];
    var seed := BpfCsumDiff(PseudoWords(addresses, 20 + respLen), 0, kernel.pseudoSum);
    if seed < 0 {
      return false;
    }
    var tcpCsum := BpfCsumDiff(segment, seed, kernel.segmentSum);
    if tcpCsum < 0 {
      return false;
    }
    var check := CsumFold(tcpCsum);
    SummedSegment(f, blanked, respLen, seed, tcpCsum);
    Store(packet, 50, PutLe16(check));
    BlankedThenWritten(f, 50, PutLe16(check));
    assert f[..50] == old(packet[..50]) && f[52..] == old(packet[52..]);
    return true;
  }

  // ---- the whole program

  lemma SameHeaderLength(f: Frame, g: Frame)
    requires |f| >= 34 && |g| >= 34 && f[14] == g[14]
    ensures IpHeaderLength(f) == IpHeaderLength(g)
  {
  }

  /** The frame `g`, which starts like the request `f`, after both address swaps. */
  lemma SwappedParts(f: Frame, g: Frame, s1: Frame, s2: Frame)
    requires |f| >= 54 && |g| >= 54 && g[..54] == f[..54]
    requires s1 == g[6..12] + g[..6] + g[12..]
    requires s2 == s1[..26] + s1[30..34] + s1[26..30] + s1[34..]
    ensures s2 == f[6..12] + f[..6] + f[12..26] + f[30..34] + f[26..30] + f[34..54] + g[54..]
  {
    var macs := f[6..12] + f[..6];
    SamePrefix(f, g, 6, 12);
    SamePrefix(f, g, 0, 6);
    assert s1 == macs + g[12..];
    Behind(s1, macs, g, 12, 26);
    Behind(s1, macs, g, 26, 30);
    Behind(s1, macs, g, 30, 34);
    Behind(s1, macs, g, 34, |g|);
    assert s1[..26] == macs + s1[12..26];
    SamePrefix(f, g, 12, 26);
    SamePrefix(f, g, 26, 30);
    SamePrefix(f, g, 30, 34);
    SamePrefix(f, g, 34, 54);
    assert g[34..|g|] == g[34..54] + g[54..] && s1[34..] == s1[34..|g|];
  }

  lemma SamePrefix(f: Frame, g: Frame, from: nat, to: nat)
    requires |f| >= 54 && |g| >= 54 && g[..54] == f[..54] && from <= to <= 54
    ensures g[from..to] == f[from..to]
  {
    assert forall i | 0 <= i < 54 :: g[i] == g[..54][i] == f[..54][i] == f[i];
  }

  /** Behind the hardware addresses a frame is as before. */
  lemma Behind(s: Frame, macs: seq<Byte>, g: Frame, from: nat, to: nat)
    requires |macs| == 12 <= from <= to <= |g| && s == macs + g[12..]
    ensures s[from..to] == g[from..to]
  {
  }

  /** The frame after sections 13 to 17 as well: everything but the checksums. */
  lemma RewrittenParts(f: Frame, g: Frame, payload: nat, R: seq<Byte>, s2: Frame, s3: Frame, s4: Frame)
    requires |f| >= 54 && |R| <= 65495 && |g| >= 54 + |R|
    requires s2 == f[6..12] + f[..6] + f[12..26] + f[30..34] + f[26..30] + f[34..54] + g[54..]
    requires s3 == s2[..34] + TurnedRound(s2[34..54], payload) + s2[54..]
    requires s4 == s3[..16] + PutBe16(40 + |R|) + s3[18..54] + R + s3[54 + |R|..]
    ensures |s4| == |g|
    ensures s4[..14] == f[6..12] + f[..6] + f[12..14]
    ensures s4[14..34] == ReplyIp(f, R, f[24..26])
    ensures s4[34..54 + |R|] == TurnedRound(f[34..54], payload) + R
    ensures s4[54 + |R|..] == g[54 + |R|..]
  {
    hide TurnedRound, PutBe16;
    var t, len := TurnedRound(f[34..54], payload), PutBe16(40 + |R|);
    assert s2[34..54] == f[34..54];
    assert s3 == f[6..12] + f[..6] + f[12..26] + f[30..34] + f[26..30] + t + g[54..];
    assert s3[..16] == f[6..12] + f[..6] + f[12..16];
    assert s3[18..54] == f[18..26] + f[30..34] + f[26..30] + t;
    assert s3[54 + |R|..] == g[54 + |R|..];
    assert s4[..16] == s3[..16];
    assert s4[..14] == s4[..16][..14];
    assert f[18..26] == f[18..24] + f[24..26];
    assert s4[14..34] == f[14..16] + len + f[18..26] + f[30..34] + f[26..30];
    assert s4[34..54] == t;
    assert s4[54..54 + |R|] == R;
    assert s4[34..54 + |R|] == s4[34..54] + s4[54..54 + |R|];
  }

  /** Two bytes written inside a stretch of a frame leave everything around it. */
  lemma WrittenInside(f: Frame, g: Frame, from: nat, to: nat, at: nat, word: seq<Byte>)
    requires from <= at && at + 2 <= to <= |f| && |word| == 2
    requires g == f[..at] + word + f[at + 2..]
    ensures |g| == |f| && g[..from] == f[..from] && g[to..] == f[to..]
    ensures g[from..to] == f[from..to][..at - from] + word + f[from..to][at + 2 - from..]
  {
    var middle := f[from..at] + word + f[at + 2..to];
    assert f[..at] == f[..from] + f[from..at] && f[at + 2..] == f[at + 2..to] + f[to..];
    assert g == f[..from] + middle + f[to..];
    ThreeParts(g, f[..from], middle, f[to..]);
    SliceOfSlice(f, from, to, at);
  }

  lemma SliceOfSlice(f: Frame, from: nat, to: nat, at: nat)
    requires from <= at && at + 2 <= to <= |f|
    ensures f[from..to][..at - from] == f[from..at] && f[from..to][at + 2 - from..] == f[at + 2..to]
  {
  }

  lemma ThreeParts(f: Frame, a: seq<Byte>, b: seq<Byte>, c: seq<Byte>)
    requires f == a + b + c
    ensures f[..|a|] == a && f[|a|..|a| + |b|] == b && f[|a| + |b|..] == c
  {
  }

  /** Filling in the IPv4 checksum. */
  lemma IpParts(f: Frame, payload: nat, R: seq<Byte>, s4: Frame, s5: Frame)
    requires |f| >= 54 && |R| <= 65495 && |s4| >= 54 + |R|
    requires s4[14..34] == ReplyIp(f, R, f[24..26])
    requires s5 == s4[..24] + PutBe16(Checksum(CheckBlanked(s4[14..34], 10))) + s4[26..]
    ensures s5[..14] == s4[..14] && s5[34..54 + |R|] == s4[34..54 + |R|] && s5[54 + |R|..] == s4[54 + |R|..]
    ensures s5[14..34] == ReplyIp(f, R, PutBe16(IpCheck(f, R)))
    ensures s5[26..34] == f[30..34] + f[26..30]
  {
    hide Checksum, PutBe16;
    var ip, ipCheck := s4[14..34], PutBe16(IpCheck(f, R));
    assert CheckBlanked(ip, 10) == ReplyIp(f, R, BLANK);
    WrittenInside(s4, s5, 14, 34, 24, ipCheck);
    assert s5[34..54 + |R|] == s5[34..][..20 + |R|] && s4[34..54 + |R|] == s4[34..][..20 + |R|];
    assert s5[54 + |R|..] == s5[34..][20 + |R|..] && s4[54 + |R|..] == s4[34..][20 + |R|..];
    assert s5[26..34] == s5[14..34][12..];
  }

  /** Filling in the TCP checksum. */
  lemma TcpParts(f: Frame, payload: nat, R: seq<Byte>, s5: Frame, s6: Frame)
    requires |f| >= 54 && |R| <= 65495 && |s5| >= 54 + |R|
    requires s5[26..34] == f[30..34] + f[26..30]
    requires s5[34..54 + |R|] == TurnedRound(f[34..54], payload) + R
    requires s6 == s5[..50] + PutBe16(SegmentCheck(s5, |R|)) + s5[52..]
    ensures s6[..34] == s5[..34] && s6[54 + |R|..] == s5[54 + |R|..]
    ensures s6[34..54 + |R|] == ReplyTcp(f, payload, R, PutBe16(TcpCheck(f, payload, R)))
  {
    hide Checksum, TurnedRound, PutBe16, PseudoHeader;
    var s, t := s5[34..54 + |R|], TurnedRound(f[34..54], payload);
    assert s[..16] == t[..16] && s[18..] == t[18..] + R;
    assert CheckBlanked(s, 16) == ReplyTcp(f, payload, R, BLANK);
    var tcpCheck := PutBe16(SegmentCheck(s5, |R|));
    WrittenInside(s5, s6, 34, 54 + |R|, 50, tcpCheck);
  }

  method Craft(packet: array<Byte>, ghost f: Frame, payload: nat, R: seq<Byte>, kernel: Grants) returns (ok: bool)
    requires |f| >= 54 && |R| <= 65495 && packet.Length >= 54 + |R| && packet[..54] == f[..54]
    modifies packet
    ensures ok <==> kernel.ipSum && kernel.pseudoSum && kernel.segmentSum
    ensures ok ==> packet[..54 + |R|] == Reply(f, payload, R)
    ensures ok ==> packet[54 + |R|..] == old(packet[54 + |R|..])
  {
    hide Checksum, TurnedRound, PutBe16, SegmentCheck;
    ghost var g := packet[..];
    SwapEthernet(packet);
    ghost var s1 := packet[..];
    SwapAddresses(packet);
    ghost var s2 := packet[..];
    TurnTcp(packet, payload);
    ghost var s3 := packet[..];
    InstallResponse(packet, R);
    ghost var s4 := packet[..];
    SwappedParts(f, g, s1, s2);
    RewrittenParts(f, g, payload, R, s2, s3, s4);
    ok := StoreIpChecksum(packet, kernel);
    if !ok {
      return;
    }
    ghost var s5 := packet[..];
    IpParts(f, payload, R, s4, s5);
    ok := StoreTcpChecksum(packet, |R|, kernel);
    if ok {
      ghost var s6 := packet[..];
      TcpParts(f, payload, R, s5, s6);
      assert s6[..54 + |R|] == s6[..34] + s6[34..54 + |R|];
      assert s6[..34] == s5[..14] + s5[14..34];
    }
  }

  lemma HeaderLengthFits(f: Frame)
    requires |f| >= 54
    ensures TcpHeaderLength(f) <= 60
  {
  }

  /** XDP_TX exactly for an accepted request that really holds its claimed IP length, when the kernel
      grants every call; it sends the reply followed by as many bytes as trailed the request. XDP_PASS
      exactly for frames that are not accepted or cannot be resized, and it leaves the frame alone (the
      exit after the resize is unreachable). Everything else is dropped. */
  method XdpHttpInjector(ctx: XdpMd, R: seq<Byte>, kernel: Grants) returns (action: Action)
    requires |R| <= 65495
    modifies ctx, ctx.packet
    ensures action in {Pass, Drop, Tx}
    ensures var f := old(ctx.packet[..]);
      action == Tx <==>
      && Accepted(f) && |f| >= 14 + TotalLength(f)
      && kernel.resize && kernel.ipSum && kernel.pseudoSum && kernel.segmentSum
    ensures var f := old(ctx.packet[..]);
      action == Pass <==> !Accepted(f) || !kernel.resize || |f| + 40 + |R| - TotalLength(f) < ETH_HLEN
    ensures action == Pass ==> ctx.packet[..] == old(ctx.packet[..])
    ensures action == Tx ==>
      var f := old(ctx.packet[..]);
      && Accepted(f) && |f| >= 14 + TotalLength(f)
      && ctx.packet.Length == 54 + |R| + (|f| - 14 - TotalLength(f))
      && ctx.packet[..54 + |R|] == Reply(f, PayloadLength(f), R)
      && forall i | 54 + |R| <= i < ctx.packet.Length && i < |f| :: ctx.packet[i] == f[i]
  {
    hide EtherType, IpHeaderLength, IpProtocol, TotalLength, TcpHeaderLength, Be16, Reply;
    ghost var f := ctx.packet[..];
    if ctx.packet.Length < ETH_HLEN {
      return Pass;
    }
    if EtherType(ctx.packet[..]) != ETH_P_IP {
      return Pass;
    }
    if ctx.packet.Length < 34 {
      return Pass;
    }
    if IpHeaderLength(ctx.packet[..]) != 20 {
      return Pass;
    }
    if IpProtocol(ctx.packet[..]) != IPPROTO_TCP {
      return Pass;
    }
    var ipTotalLen := TotalLength(ctx.packet[..]);
    if ipTotalLen < 40 {
      return Pass;
    }
    if ctx.packet.Length < 54 {
      return Pass;
    }
    if Be16(ctx.packet[..], 36) != HTTP_PORT {
      return Pass;
    }
    var flags := Flags(ctx.packet[..]);
    if flags / 0x10 % 2 != 1 {
      return Pass;
    }
    if flags / 2 % 2 == 1 {
      return Pass;
    }
    if flags / 4 % 2 == 1 {
      return Pass;
    }
    if flags % 2 == 1 {
      return Pass;
    }
    var incoming := TcpHeaderLength(ctx.packet[..]);
    HeaderLengthFits(f);
    if incoming < 20 {
      return Pass;
    }
    if incoming > 60 {
      return Pass;
    }
    if ctx.packet.Length < 34 + incoming {
      return Pass;
    }
    if 20 + incoming > ipTotalLen {
      return Pass;
    }
    var payloadLen := ipTotalLen - 20 - incoming;
    if payloadLen == 0 {
      return Pass;
    }
    var delta := (20 + |R|) - (incoming + payloadLen);
    var rc := BpfXdpAdjustTail(ctx, delta, kernel.resize);
    if rc < 0 {
      return Pass;
    }
    if ctx.packet.Length < ETH_HLEN {
      return Drop;
    }
    if ctx.packet.Length < 34 {
      return Drop;
    }
    SameHeaderLength(f, ctx.packet[..]);
    if IpHeaderLength(ctx.packet[..]) != 20 {
      return Pass;
    }
    if ctx.packet.Length < 54 {
      return Drop;
    }
    if ctx.packet.Length < 54 + |R| {
      return Drop;
    }
    assert ctx.packet[..54] == f[..54];
    var ok := Craft(ctx.packet, f, payloadLen, R, kernel);
    if !ok {
      return Drop;
    }
    return Tx;
  }
}
