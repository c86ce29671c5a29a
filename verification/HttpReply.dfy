/** What a receiver can rely on in the frames the injector sends. */
module HttpReply {
  import opened Arithmetic
  import opened Bytes
  import opened OnesComplement
  import opened Xdp
  import opened HttpInjector

  lemma {:induction false} SumPositive(s: seq<Byte>, i: nat)
    requires i < |s| && s[i] > 0
    ensures SumBE(s) > 0
  {
    if i < 2 {
    } else {
      SumPositive(s[2..], i - 2);
    }
  }

  /** Storing the checksum of the rest in a blank field makes the whole verify. */
  lemma ChecksumCompletes(s: seq<Byte>, i: nat, nonzero: nat)
    requires i % 2 == 0 && i + 2 <= |s| && s[i] == s[i + 1] == 0
    requires nonzero < |s| && s[nonzero] > 0
    ensures Verifies(Splice(s, i, PutBe16(Checksum(s))))
  {
    hide SumBE, SumLE, Fold;
    SumPositive(s, nonzero);
    SumSplice(s, i, PutBe16(Checksum(s)));
    var sum := SumBE(Splice(s, i, PutBe16(Checksum(s))));
    assert sum == SumBE(s) + 0xffff - Fold(SumBE(s));
    Shifted(sum, 0, 1 - Times(Fold(SumBE(s)), SumBE(s)));
    VerifiesMeans(sum);
  }

  lemma ReplyIpVerifies(f: Frame, R: seq<Byte>)
    requires |f| >= 54 && IpProtocol(f) == IPPROTO_TCP && |R| <= 65495
    ensures Verifies(ReplyIp(f, R, PutBe16(IpCheck(f, R))))
  {
    hide SumBE, SumLE, Fold, PutBe16;
    var blank, check := ReplyIp(f, R, BLANK), PutBe16(IpCheck(f, R));
    assert blank[10] == 0 && blank[11] == 0 && blank[9] == f[23];
    ChecksumCompletes(blank, 10, 9);
    assert Splice(blank, 10, check) == ReplyIp(f, R, check);
  }

  lemma ReplyTcpVerifies(f: Frame, payload: nat, R: seq<Byte>)
    requires |f| >= 54 && |R| <= 65495
    ensures Verifies(PseudoHeader(f[30..34] + f[26..30], 20 + |R|)
                     + ReplyTcp(f, payload, R, PutBe16(TcpCheck(f, payload, R))))
  {
    hide SumBE, SumLE, Fold, PutBe16, TurnedRound;
    var pseudo := PseudoHeader(f[30..34] + f[26..30], 20 + |R|);
    var tcp, check := ReplyTcp(f, payload, R, BLANK), PutBe16(TcpCheck(f, payload, R));
    var blank := pseudo + tcp;
    assert tcp[16] == 0 && tcp[17] == 0;
    assert blank[28] == tcp[16] && blank[29] == tcp[17] && blank[9] == IPPROTO_TCP;
    ChecksumCompletes(blank, 28, 9);
    assert Splice(tcp, 16, check) == ReplyTcp(f, payload, R, check);
    assert Splice(blank, 28, check) == pseudo + Splice(tcp, 16, check);
  }

  lemma ReplyParts(f: Frame, R: seq<Byte>)
    requires Accepted(f) && |R| <= 65495
    ensures var r := Reply(f, PayloadLength(f), R);
      && r[..14] == f[6..12] + f[..6] + f[12..14]
      && r[14..34] == ReplyIp(f, R, PutBe16(IpCheck(f, R)))
      && r[26..34] == f[30..34] + f[26..30]
      && r[34..] == ReplyTcp(f, PayloadLength(f), R, PutBe16(TcpCheck(f, PayloadLength(f), R)))
  {
    hide IpCheck, TcpCheck, PutBe16, TurnedRound;
    var payload := PayloadLength(f);
    var ip := ReplyIp(f, R, PutBe16(IpCheck(f, R)));
    var r := Reply(f, payload, R);
    assert r[14..34] == ip;
    assert r[26..34] == ip[12..];
  }

  lemma LengthField(r: Frame, w: Word)
    requires |r| >= 34 && r[16..18] == PutBe16(w)
    ensures TotalLength(r) == w
  {
    assert r[16] == PutBe16(w)[0] && r[17] == PutBe16(w)[1];
  }

  /** Every reply is a whole IPv4 datagram whose header verifies (section 3.1 of RFC 791) and whose
      TCP segment verifies against its pseudo-header (section 3.1 of RFC 9293). */
  lemma ReplyVerifies(f: Frame, R: seq<Byte>)
    requires Accepted(f) && |R| <= 65495
    ensures var r := Reply(f, PayloadLength(f), R);
      && EtherType(r) == ETH_P_IP && IpHeaderLength(r) == 20 && IpProtocol(r) == IPPROTO_TCP
      && |r| == 14 + TotalLength(r)
      && Verifies(r[14..34])
      && Verifies(PseudoHeader(r[26..34], TotalLength(r) - 20) + r[34..])
  {
    hide IpCheck, TcpCheck, PutBe16, TurnedRound, SumBE, Fold;
    ReplyParts(f, R);
    ReplyIpVerifies(f, R);
    ReplyTcpVerifies(f, PayloadLength(f), R);
    var r := Reply(f, PayloadLength(f), R);
    var ip := r[14..34];
    assert r[12] == r[..14][12] && r[13] == r[..14][13];
    assert r[14] == ip[0] && r[23] == ip[9];
    assert r[16..18] == ip[2..4];
    LengthField(r, 40 + |R|);
  }

  /** So whatever XDP_TX sends verifies at the receiver, which reads the datagram up to its total
      length and ignores the bytes that trail it. */
  lemma SentFrameVerifies(f: Frame, R: seq<Byte>, sent: Frame)
    requires Accepted(f) && |R| <= 65495
    requires |sent| >= 54 + |R| && sent[..54 + |R|] == Reply(f, PayloadLength(f), R)
    ensures EtherType(sent) == ETH_P_IP && IpHeaderLength(sent) == 20 && IpProtocol(sent) == IPPROTO_TCP
    ensures 54 <= 14 + TotalLength(sent) <= |sent|
    ensures Verifies(sent[14..34])
    ensures Verifies(PseudoHeader(sent[26..34], TotalLength(sent) - 20) + sent[34..14 + TotalLength(sent)])
  {
    hide Reply, Verifies, PseudoHeader, PayloadLength;
    ReplyVerifies(f, R);
    var r := Reply(f, PayloadLength(f), R);
    assert forall i | 0 <= i < 54 + |R| :: sent[i] == r[i];
    assert sent[14..34] == r[14..34] && sent[26..34] == r[26..34];
    assert TotalLength(sent) == TotalLength(r);
    assert sent[34..14 + TotalLength(sent)] == r[34..];
  }

  /** The injector as the network sees it: whatever it sends back is a datagram that verifies. */
  method Inject(ctx: XdpMd, R: seq<Byte>, kernel: Grants) returns (action: Action)
    requires |R| <= 65495
    modifies ctx, ctx.packet
    ensures var f := old(ctx.packet[..]);
      action == Tx <==>
      && Accepted(f) && |f| >= 14 + TotalLength(f)
      && kernel.resize && kernel.ipSum && kernel.pseudoSum && kernel.segmentSum
    ensures action == Tx ==>
      var sent := ctx.packet[..];
      && |sent| >= 54 && EtherType(sent) == ETH_P_IP && IpHeaderLength(sent) == 20 && IpProtocol(sent) == IPPROTO_TCP
      && 54 <= 14 + TotalLength(sent) <= |sent|
      && Verifies(sent[14..34])
      && var segment := sent[34..14 + TotalLength(sent)];
      && Verifies(sent[26..34] + [0, 6] + PutBe16(|segment|) + segment)
  {
    hide Verifies, Reply, PutBe16;
    ghost var f := ctx.packet[..];
    action := XdpHttpInjector(ctx, R, kernel);
    if action == Tx {
      SentFrameVerifies(f, R, ctx.packet[..]);
    }
  }

  /** Data bytes in a TCP/IPv4 frame without IP options. */
  function DataLength(r: Frame): int
    requires |r| >= 54
  {
    TotalLength(r) - 20 - TcpHeaderLength(r)
  }

  /** The fields of a turned-round header, and of the segment that starts with it. */
  lemma TurnedFields(f: Frame, payload: nat, R: seq<Byte>, check: seq<Byte>)
    requires |f| >= 54 && |check| == 2
    ensures var t, s := f[34..54], ReplyTcp(f, payload, R, check);
      && s[..2] == t[2..4] && s[2..4] == t[..2] && s[4..8] == t[8..12]
      && s[8..12] == PutBe32((Be32(t[4..8], 0) + payload) % 0x1_0000_0000)
      && s[12] == FiveWords(t[12]) && s[13] == PushAck(t[13]) && s[20..] == R
  {
    hide PutBe32, Be32, FiveWords, PushAck;
    var t, s := f[34..54], ReplyTcp(f, payload, R, check);
    var q := TurnedRound(t, payload);
    assert q[..2] == t[2..4];
    assert q[2..4] == t[..2];
    assert q[4..8] == t[8..12];
    assert q[8..12] == PutBe32((Be32(t[4..8], 0) + payload) % 0x1_0000_0000);
    assert s[..16] == q[..16];
    assert s[..2] == s[..16][..2] && q[..2] == q[..16][..2];
    assert s[2..4] == s[..16][2..4] && q[2..4] == q[..16][2..4];
    assert s[4..8] == s[..16][4..8] && q[4..8] == q[..16][4..8];
    assert s[8..12] == s[..16][8..12] && q[8..12] == q[..16][8..12];
    assert s[12] == s[..16][12] && s[13] == s[..16][13];
  }

  /** What the reply does not set is the request's: EtherType, version, type of service, identification,
      fragment field, TTL, protocol, reserved bits, the three high flags, window and urgent pointer. */
  lemma ReplyKeeps(f: Frame, R: seq<Byte>)
    requires Accepted(f) && |R| <= 65495
    ensures var r := Reply(f, PayloadLength(f), R);
      && r[12..16] == f[12..16] && r[18..24] == f[18..24]
      && r[46] % 0x10 == f[46] % 0x10 && r[47] / 0x20 == f[47] / 0x20
      && r[48..50] == f[48..50] && r[52..54] == f[52..54]
      && TotalLength(r) == 40 + |R| == |r| - 14
  {
    hide IpCheck, TcpCheck, PutBe16, ReplyTcp, TurnedRound, Be16;
    var payload := PayloadLength(f);
    var r, check := Reply(f, payload, R), PutBe16(TcpCheck(f, payload, R));
    ReplyParts(f, R);
    TurnedRest(f, payload, R, check);
    var ip, tcp := r[14..34], r[34..];
    assert r[12..14] == r[..14][12..14] && r[14..16] == ip[..2] && r[18..24] == ip[4..10];
    assert r[12..16] == r[12..14] + r[14..16] && f[12..16] == f[12..14] + f[14..16];
    assert r[46] == tcp[12] && r[47] == tcp[13] && r[48..50] == tcp[14..16] && r[52..54] == tcp[18..20];
    assert r[16..18] == ip[2..4];
    KeptBits(f[46], f[47]);
    LengthField(r, 40 + |R|);
  }

  lemma TurnedRest(f: Frame, payload: nat, R: seq<Byte>, check: seq<Byte>)
    requires |f| >= 54 && |check| == 2
    ensures var s := ReplyTcp(f, payload, R, check);
      s[12] == FiveWords(f[46]) && s[13] == PushAck(f[47]) && s[14..16] == f[48..50] && s[18..20] == f[52..54]
  {
    hide PutBe32, Be32, FiveWords, PushAck;
    var t, s := f[34..54], ReplyTcp(f, payload, R, check);
    var q := TurnedRound(t, payload);
    assert q[14..] == t[14..];
    assert s[12] == q[12] && s[13] == q[13];
    assert s[14..16] == q[14..][..2] && s[18..20] == q[14..][4..6];
    SubSlice(f, 14, 16);
    SubSlice(f, 18, 20);
    assert t[14..][..2] == t[14..16] && t[14..][4..6] == t[18..20];
  }

  lemma KeptBits(offset: Byte, flags: Byte)
    ensures FiveWords(offset) % 0x10 == offset % 0x10 && PushAck(flags) / 0x20 == flags / 0x20
  {
  }

  /** Where the fields of the reply come from. */
  lemma ReplyFields(f: Frame, R: seq<Byte>)
    requires Accepted(f) && |R| <= 65495
    ensures var r := Reply(f, PayloadLength(f), R);
      && r[..6] == f[6..12] && r[6..12] == f[..6]
      && r[26..30] == f[30..34] && r[30..34] == f[26..30]
      && r[34..36] == f[36..38] && r[36..38] == f[34..36]
      && Sequence(r) == Acknowledged(f)
      && Acknowledged(r) == (Sequence(f) + PayloadLength(f)) % 0x1_0000_0000
      && DataLength(r) == |R| && r[54..] == R
      && HasAck(r) && !OpensOrCloses(r)
  {
    hide IpCheck, TcpCheck, PutBe16, PutBe32, FiveWords, PushAck, Be32, ReplyTcp;
    var payload := PayloadLength(f);
    var r := Reply(f, payload, R);
    ReplyParts(f, R);
    TurnedFields(f, payload, R, PutBe16(TcpCheck(f, payload, R)));
    SubSlice(f, 0, 2);
    SubSlice(f, 2, 4);
    SubSlice(f, 4, 8);
    SubSlice(f, 8, 12);
    assert r[..6] == r[..14][..6] && r[6..12] == r[..14][6..12];
    assert r[26..30] == r[26..34][..4] && r[30..34] == r[26..34][4..];
    assert r[34..36] == r[34..][..2] && r[36..38] == r[34..][2..4];
    assert r[38..42] == r[34..][4..8] && r[42..46] == r[34..][8..12];
    assert r[46] == r[34..][12] && r[47] == r[34..][13];
    assert r[54..] == r[34..][20..];
    assert r[16..18] == r[14..34][2..4];
    LengthField(r, 40 + |R|);
    SequenceFields(f, r, payload);
    OffsetAndFlags(r, f[46], f[47]);
  }

  lemma SequenceFields(f: Frame, r: Frame, payload: nat)
    requires |f| >= 54 && |r| >= 54
    requires r[38..42] == f[42..46]
    requires r[42..46] == PutBe32((Be32(f[38..42], 0) + payload) % 0x1_0000_0000)
    ensures Sequence(r) == Acknowledged(f)
    ensures Acknowledged(r) == (Sequence(f) + payload) % 0x1_0000_0000
  {
    FieldAt(r, 38);
    FieldAt(f, 42);
    FieldAt(f, 38);
    FieldAt(r, 42);
  }

  lemma FieldAt(f: Frame, i: nat)
    requires i + 4 <= |f|
    ensures Be32(f, i) == Be32(f[i..i + 4], 0)
  {
  }

  lemma OffsetAndFlags(r: Frame, offset: Byte, flags: Byte)
    requires |r| >= 54 && r[46] == FiveWords(offset) && r[47] == PushAck(flags)
    ensures TcpHeaderLength(r) == 20
    ensures HasAck(r) && !OpensOrCloses(r)
  {
  }

  // ---- a whole conversation

  /** What TCP reads in a segment: where its data starts, what it acknowledges, how much it holds. */
  datatype Segment = Segment(start: DWord, ack: DWord, length: nat)

  function SegmentOf(f: Frame): Segment {
    if |f| < 54 || DataLength(f) < 0 then Segment(0, 0, 0)
    else Segment(Sequence(f), Acknowledged(f), DataLength(f))
  }

  /** The reply to a request; other frames stay as they are. */
  ghost function Answer(f: Frame, R: seq<Byte>): Frame
    requires |R| <= 65495
  {
    if Accepted(f) then Reply(f, PayloadLength(f), R) else f
  }

  /** What the client keeps: the next sequence number it sends and the one it expects. */
  datatype Client = Client(next: DWord, expected: DWord)

  function Plus(d: DWord, n: nat): DWord {
    (d + n) % 0x1_0000_0000
  }

  /** A request any such client can send: one byte of data to port 80. */
  function SampleRequest(c: Client): (f: Frame)
    ensures |f| == 55
  {
    [0, 0, 0, 0, 0, 1, 0, 0, 0, 0, 0, 2, 0x08, 0x00]
    + [0x45, 0, 0, 41, 0, 0, 0, 0, 64, 6, 0, 0, 10, 0, 0, 1, 10, 0, 0, 2]
    + [0x12, 0x34, 0, 80] + PutBe32(c.next) + PutBe32(c.expected) + [0x50, 0x10, 0, 0, 0, 0, 0, 0]
    + [0x2e]
  }

  /** In-order requests exist in every state of the client, so conversations do not get stuck. */
  lemma RequestsExist(c: Client)
    ensures InOrder(c, SampleRequest(c)) && SegmentOf(SampleRequest(c)).length == 1
  {
    hide PutBe32, Be32;
    var f := SampleRequest(c);
    assert f[38..42] == PutBe32(c.next);
    assert f[42..46] == PutBe32(c.expected);
    FieldAt(f, 38);
    FieldAt(f, 42);
    assert f[12] == 0x08 && f[13] == 0 && f[14] == 0x45 && f[23] == 6 && f[16] == 0 && f[17] == 41;
    assert f[36] == 0 && f[37] == 80 && f[46] == 0x50 && f[47] == 0x10;
  }

  /** A request from a client that has received everything in order. */
  predicate InOrder(c: Client, f: Frame) {
    Accepted(f) && SegmentOf(f).start == c.next && SegmentOf(f).ack == c.expected
  }

  /** The client after sending `f` and taking in the reply, if the reply starts where it expects. */
  ghost function AfterRound(c: Client, f: Frame, R: seq<Byte>): Client
    requires |R| <= 65495
  {
    var r := SegmentOf(Answer(f, R));
    Client(Plus(c.next, SegmentOf(f).length),
           if r.start == c.expected then Plus(c.expected, r.length) else c.expected)
  }

  /** Requests sent one after the other by an in-order client, each answered before the next. */
  ghost predicate Conversation(c: Client, requests: seq<Frame>, R: seq<Byte>)
    requires |R| <= 65495
    decreases |requests|
  {
    requests == [] || (InOrder(c, requests[0]) && Conversation(AfterRound(c, requests[0], R), requests[1..], R))
  }

  function DataSent(requests: seq<Frame>): nat {
    if requests == [] then 0 else SegmentOf(requests[0]).length + DataSent(requests[1..])
  }

  lemma OneRound(c: Client, f: Frame, R: seq<Byte>)
    requires InOrder(c, f) && |R| <= 65495
    ensures SegmentOf(Answer(f, R)) == Segment(c.expected, Plus(c.next, SegmentOf(f).length), |R|)
    ensures AfterRound(c, f, R) == Client(Plus(c.next, SegmentOf(f).length), Plus(c.expected, |R|))
  {
    hide Reply, IpHeaderLength, Sequence, Acknowledged;
    ReplyFields(f, R);
  }

  lemma PlusPlus(d: DWord, m: nat, n: nat)
    ensures Plus(Plus(d, m), n) == Plus(d, m + n)
  {
  }

  /** Client and fabricated server stay in step over any number of rounds, through wraparound:
      round `k` starts at the client's expected number, acknowledges exactly what it has sent and
      carries the whole response. */
  lemma {:induction false} ConversationInStep(c: Client, requests: seq<Frame>, R: seq<Byte>, k: nat)
    requires |R| <= 65495 && Conversation(c, requests, R) && k < |requests|
    ensures SegmentOf(Answer(requests[k], R))
         == Segment(Plus(c.expected, Product(k, |R|)), Plus(c.next, DataSent(requests[..k + 1])), |R|)
    decreases |requests|
  {
    hide SegmentOf, Answer, AfterRound, Plus, InOrder;
    OneRound(c, requests[0], R);
    if k == 0 {
      assert requests[..1][1..] == [] && requests[..1][0] == requests[0];
      PlusZero(c.expected);
    } else {
      var d := AfterRound(c, requests[0], R);
      ConversationInStep(d, requests[1..], R, k - 1);
      assert requests[..k + 1][1..] == requests[1..][..k];
      PlusPlus(c.expected, |R|, Product(k - 1, |R|));
      PlusPlus(c.next, SegmentOf(requests[0]).length, DataSent(requests[1..][..k]));
      OneMore(k - 1, |R|);
    }
  }

  lemma PlusZero(d: DWord)
    ensures Plus(d, 0) == d
  {
  }
}
