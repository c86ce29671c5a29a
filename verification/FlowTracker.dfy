/** The flow tracker: which frames it counts under which key, and two runs of it in which the
    unsynchronised reader and the two-step counting lose a packet. */
module FlowTracker {
  import opened Wrappers
  import opened Bytes
  import opened Printing
  import opened Xdp
  import opened SharedCounter

  datatype FlowKey = FlowKey(saddr: DWord, daddr: DWord, sport: Word, dport: Word)

  /** The flow of a frame, or nothing for a frame that is not counted: neither TCP nor UDP, headers
      cut short, or a zero port. The IPv4 header length is not checked. */
  function FlowOf(f: Frame): Option<FlowKey> {
    if |f| < 34 || EtherType(f) != ETH_P_IP then None
    else
      var ports := 14 + IpHeaderLength(f);
      var needed := if IpProtocol(f) == IPPROTO_TCP then 20 else 8;
      if (IpProtocol(f) != IPPROTO_TCP && IpProtocol(f) != IPPROTO_UDP) || ports + needed > |f| then None
      else if Be16(f, ports) == 0 || Be16(f, ports + 2) == 0 then None
      else Some(FlowKey(Be32(f, 26), Be32(f, 30), Be16(f, ports), Be16(f, ports + 2)))
  }

  /** Which frames are counted: IPv4 with protocol 6 and 20 bytes, or 17 and 8 bytes, behind the header
      length it claims, and no zero port there. */
  lemma CountedFrames(f: Frame)
    ensures FlowOf(f).Some? <==>
            && |f| >= 34 && f[12] == 0x08 && f[13] == 0x00
            && var ports := 14 + f[14] % 0x10 * 4;
               && ((f[23] == 6 && ports + 20 <= |f|) || (f[23] == 17 && ports + 8 <= |f|))
               && !(f[ports] == f[ports + 1] == 0) && !(f[ports + 2] == f[ports + 3] == 0)
  {
  }

  /** Reading inverts printing: whatever the rest of the headers and the payload hold, a TCP or UDP
      frame is counted under its own addresses and ports. */
  lemma FlowOfPrinted(macs: seq<Byte>, ip: Ipv4, protocol: Byte, sport: Word, dport: Word, rest: seq<Byte>)
    requires |macs| == 12 && ip.Ok() && sport != 0 && dport != 0
    requires (protocol == 6 && |rest| >= 16) || (protocol == 17 && |rest| >= 4)
    ensures FlowOf(PrintIp(macs, ip, protocol, PrintPorts(sport, dport, rest)))
         == Some(FlowKey(ip.src, ip.dst, sport, dport))
  {
    hide PrintIp, PrintPorts, Be16, Be32, IpHeaderLength;
    var ports := PrintPorts(sport, dport, rest);
    var f := PrintIp(macs, ip, protocol, ports);
    PrintedIp(macs, ip, protocol, ports);
    EtherTypeBytes(f);
    WordBehind(f, 14 + IpHeaderLength(f), 0);
    WordBehind(f, 14 + IpHeaderLength(f), 2);
  }

  const PLAIN_HEADER: seq<Byte> := [0, 0, 0, 0, 0, 0, 0]

  /** A TCP frame of a flow, without options or payload. */
  function FrameOf(k: FlowKey): Frame {
    PrintIp(ZERO_MAC + ZERO_MAC, Ipv4(4, PLAIN_HEADER, 64, 0, k.saddr, k.daddr, []), IPPROTO_TCP,
            PrintPorts(k.sport, k.dport, ZERO_MAC + ZERO_MAC + [0, 0, 0, 0]))
  }

  lemma FlowOfFrame(k: FlowKey)
    requires k.sport != 0 && k.dport != 0
    ensures FlowOf(FrameOf(k)) == Some(k)
  {
    hide FlowOf, PrintIp, PrintPorts;
    FlowOfPrinted(ZERO_MAC + ZERO_MAC, Ipv4(4, PLAIN_HEADER, 64, 0, k.saddr, k.daddr, []), IPPROTO_TCP,
                  k.sport, k.dport, ZERO_MAC + ZERO_MAC + [0, 0, 0, 0]);
  }

  /** The counted flows are exactly those without a zero port. */
  lemma CountedFlows(k: FlowKey)
    ensures (exists f :: FlowOf(f) == Some(k)) <==> k.sport != 0 && k.dport != 0
  {
    hide FrameOf;
    if k.sport != 0 && k.dport != 0 {
      FlowOfFrame(k);
    }
  }

  // ---- runs that lose a packet

  ghost predicate Falls(s: State<FlowKey>, k: FlowKey, packets: nat, kept: nat) {
    exists steps :: Valid(s, steps) && Run(s, steps).handled[k] == packets
                    && InRows(Run(s, steps).rows, k) + Unlogged(Run(s, steps), k) == kept
  }

  lemma FallsNow(s: State<FlowKey>, k: FlowKey)
    ensures Falls(s, k, s.handled[k], InRows(s.rows, k) + Unlogged(s, k))
  {
    assert Valid(s, []) && Run(s, []) == s;
  }

  lemma FallsAfter(s: State<FlowKey>, step: Step<FlowKey>, k: FlowKey, packets: nat, kept: nat)
    requires Enabled(s, step) && Falls(Apply(s, step), k, packets, kept)
    ensures Falls(s, k, packets, kept)
  {
    hide Enabled, Apply, Unlogged;
    var rest :| Valid(Apply(s, step), rest) && Run(Apply(s, step), rest).handled[k] == packets
                && InRows(Run(Apply(s, step), rest).rows, k) + Unlogged(Run(Apply(s, step), rest), k) == kept;
    Prefixed(s, step, rest);
  }

  /** The second half of such a run: the flow's one packet is logged, and another one arrives. */
  lemma OnePacketLogged(f: Frame, k: FlowKey, s: State<FlowKey>)
    requires FlowOf(f) == Some(k)
    requires s == State(FlowOf, 1, map[k := 0], [Element(k, 1)], [Idle], Logged(k, None, 0, 1),
                        [Row(k, 1)], multiset{k})
    ensures Falls(s, k, 2, 1)
  {
    hide Valid, Run, Falls, FlowOf;
    assert [Row(k, 1)][..0] == [] && InRows(s.rows, k) == 1;
    var s1 := Apply(s, Lookup(0, f));
    var s2 := Apply(s1, Add(0));
    var s3 := Apply(s2, Delete);
    FallsNow(s3, k);
    FallsAfter(s2, Delete, k, 2, 1);
    FallsAfter(s1, Add(0), k, 2, 1);
    FallsAfter(s, Lookup(0, f), k, 2, 1);
  }

  /** Unconditional conservation is false: a packet counted between log and delete is lost. */
  lemma LostInTheWindow(k: FlowKey)
    requires k.sport != 0 && k.dport != 0
    ensures Falls(Init(FlowOf, 1, 1), k, 2, 1)
  {
    hide Valid, Run, Falls, FlowOf, FrameOf;
    var f := FrameOf(k);
    FlowOfFrame(k);
    var s0 := Init(FlowOf, 1, 1);
    var s1 := Apply(s0, Lookup(0, f));
    var s2 := Apply(s1, Insert(0));
    var s3 := Apply(s2, GetFirst(Some(k)));
    var s4 := Apply(s3, GetNext(None));
    OnePacketLogged(f, k, Apply(s4, Log(0)));
    FallsAfter(s4, Log(0), k, 2, 1);
    FallsAfter(s3, GetNext(None), k, 2, 1);
    FallsAfter(s2, GetFirst(Some(k)), k, 2, 1);
    FallsAfter(s1, Insert(0), k, 2, 1);
    FallsAfter(s0, Lookup(0, f), k, 2, 1);
  }

  /** A packet is lost when two CPUs miss on a new flow together, with no reader at all. */
  lemma LostInACommonMiss(k: FlowKey)
    requires k.sport != 0 && k.dport != 0
    ensures Falls(Init(FlowOf, 1, 2), k, 2, 1)
  {
    hide Valid, Run, Falls, FlowOf, FrameOf;
    var f := FrameOf(k);
    FlowOfFrame(k);
    var s0 := Init(FlowOf, 1, 2);
    var s1 := Apply(s0, Lookup(0, f));
    var s2 := Apply(s1, Lookup(1, f));
    var s3 := Apply(s2, Insert(0));
    var s4 := Apply(s3, Insert(1));
    FallsNow(s4, k);
    FallsAfter(s3, Insert(1), k, 2, 1);
    FallsAfter(s2, Insert(0), k, 2, 1);
    FallsAfter(s1, Lookup(1, f), k, 2, 1);
    FallsAfter(s0, Lookup(0, f), k, 2, 1);
  }
}
