/** The router together with its loader: the program is attached first, and packets may arrive
    before, between and after the nine map updates that configure it. */
module RouterLoader {
  import opened Bytes
  import opened Xdp
  import opened L7Router
  import opened Printing

  // ---- how the script writes a number for bpftool

  function HexDigit(d: nat): char
    requires d < 16
  {
    "0123456789abcdef"[d]
  }

  function DigitValue(c: char): nat {
    if '0' <= c <= '9' then c as int - '0' as int
    else if 'a' <= c <= 'f' then c as int - 'a' as int + 10
    else 0
  }

  /** `printf '0x%02x'` of one byte. */
  function HexToken(b: Byte): (token: string)
    ensures |token| == 4
  {
    var n: int := b;
    ['0', 'x', HexDigit(n / 16), HexDigit(n % 16)]
  }

  /** The byte bpftool reads from a token. */
  function TokenValue(token: string): Byte
    requires |token| == 4
  {
    (16 * DigitValue(token[2]) + DigitValue(token[3])) % 0x100
  }

  /** `uint32_bytes`: the four bytes of a number, least significant first. */
  function Uint32Bytes(n: nat): (tokens: seq<string>)
    ensures |tokens| == 4 && forall i | 0 <= i < 4 :: |tokens[i]| == 4
  {
    [HexToken(n % 0x100), HexToken(n / 0x100 % 0x100), HexToken(n / 0x1_0000 % 0x100), HexToken(n / 0x100_0000 % 0x100)]
  }

  /** The `__u32` a little-endian kernel finds in a map value written from four tokens. */
  function StoredValue(tokens: seq<string>): nat
    requires |tokens| == 4 && forall i | 0 <= i < 4 :: |tokens[i]| == 4
  {
    TokenValue(tokens[0]) + 0x100 * (TokenValue(tokens[1]) as int) + 0x1_0000 * (TokenValue(tokens[2]) as int)
    + 0x100_0000 * (TokenValue(tokens[3]) as int)
  }

  lemma DigitRoundTrip(d: nat)
    requires d < 16
    ensures DigitValue(HexDigit(d)) == d
  {
    assert d == 0 || d == 1 || d == 2 || d == 3 || d == 4 || d == 5 || d == 6 || d == 7 || d == 8 || d == 9
        || d == 10 || d == 11 || d == 12 || d == 13 || d == 14 || d == 15;
  }

  lemma TokenRoundTrip(b: Byte)
    ensures TokenValue(HexToken(b)) == b
  {
    hide HexDigit, DigitValue;
    var n: int := b;
    DigitRoundTrip(n / 16);
    DigitRoundTrip(n % 16);
  }

  /** Written and read back, every 32-bit number is itself; a wider one loses its high bits. */
  lemma NumberRoundTrip(n: nat)
    ensures StoredValue(Uint32Bytes(n)) == n % 0x1_0000_0000
  {
    hide TokenValue, HexToken;
    TokenRoundTrip(n % 0x100);
    TokenRoundTrip(n / 0x100 % 0x100);
    TokenRoundTrip(n / 0x1_0000 % 0x100);
    TokenRoundTrip(n / 0x100_0000 % 0x100);
    FourBytes(n);
  }

  lemma FourBytes(n: nat)
    ensures n % 0x1_0000_0000 == n % 0x100 + 0x100 * (n / 0x100 % 0x100) + 0x1_0000 * (n / 0x1_0000 % 0x100)
                                 + 0x100_0000 * (n / 0x100_0000 % 0x100)
  {
    NestedDivision(n);
    var q1 := n / 0x100;
    var q2 := q1 / 0x100;
    var q3 := q2 / 0x100;
    var low := n % 0x100 + 0x100 * (q1 % 0x100) + 0x1_0000 * (q2 % 0x100) + 0x100_0000 * (q3 % 0x100);
    assert n == 0x100 * q1 + n % 0x100 && q1 == 0x100 * q2 + q1 % 0x100;
    assert q2 == 0x100 * q3 + q2 % 0x100 && q3 == 0x100 * (q3 / 0x100) + q3 % 0x100;
    LowPart(n, low, q3 / 0x100);
  }

  lemma LowPart(n: nat, low: nat, high: nat)
    requires n == low + 0x1_0000_0000 * high && low < 0x1_0000_0000
    ensures n % 0x1_0000_0000 == low
  {
  }

  lemma NestedDivision(n: nat)
    ensures n / 0x1_0000 == n / 0x100 / 0x100
    ensures n / 0x100_0000 == n / 0x100 / 0x100 / 0x100
  {
  }

  // ---- the nine updates

  /** What the script discovers and is given: interface numbers, peer and server addresses. */
  datatype Setup = Setup(client: nat, f: nat, z: nat, toF: MacPair, toZ: MacPair, toClient: MacPair) {
    predicate Ok() {
      && 0 < client < 0x1_0000_0000 && 0 < f < 0x1_0000_0000 && 0 < z < 0x1_0000_0000
      && client != f && client != z && f != z
    }
  }

  const UPDATES: nat := 9

  /** The value `bpftool map update` stores for an interface number. */
  function Stored(ifindex: nat): nat {
    StoredValue(Uint32Bytes(ifindex))
  }

  /** Update number `i`, in the order of the script. */
  function Updated(s: Setup, i: nat, c: Config): (d: Config)
    requires c.Ok() && i < UPDATES
    ensures d.Ok()
  {
    match i
    case 0 => c.(ifindex := c.ifindex[0 := Stored(s.client)])
    case 1 => c.(ifindex := c.ifindex[1 := Stored(s.f)])
    case 2 => c.(ifindex := c.ifindex[2 := Stored(s.z)])
    case 3 => c.(txPort := c.txPort[TX_TO_F := Stored(s.f)])
    case 4 => c.(txPort := c.txPort[TX_TO_Z := Stored(s.z)])
    case 5 => c.(txPort := c.txPort[TX_TO_CLIENT := Stored(s.client)])
    case 6 => c.(macs := c.macs[TX_TO_F := s.toF])
    case 7 => c.(macs := c.macs[TX_TO_Z := s.toZ])
    case _ => c.(macs := c.macs[TX_TO_CLIENT := s.toClient])
  }

  lemma SetupStored(s: Setup)
    requires s.Ok()
    ensures Stored(s.client) == s.client && Stored(s.f) == s.f && Stored(s.z) == s.z
  {
    hide StoredValue, Uint32Bytes;
    NumberRoundTrip(s.client);
    NumberRoundTrip(s.f);
    NumberRoundTrip(s.z);
  }

  /** The fully configured router. */
  function Full(s: Setup): (c: Config)
    ensures c.Ok()
  {
    Config([s.client, s.f, s.z], [s.toF, s.toZ, s.toClient],
           map[TX_TO_F := s.f, TX_TO_Z := s.z, TX_TO_CLIENT := s.client])
  }

  /** A router some of whose entries are set and the others still initial. */
  ghost predicate Partial(s: Setup, c: Config) {
    && c.Ok()
    && (forall i | 0 <= i < 3 :: c.ifindex[i] == 0 || c.ifindex[i] == Full(s).ifindex[i])
    && (forall i | 0 <= i < 3 :: c.macs[i] == ZERO_PAIR || c.macs[i] == Full(s).macs[i])
    && (forall slot | slot in c.txPort :: c.txPort[slot] == Full(s).txPort[slot])
  }

  lemma UpdateKeepsPartial(s: Setup, i: nat, c: Config)
    requires s.Ok() && Partial(s, c) && i < UPDATES
    ensures Partial(s, Updated(s, i, c))
  {
    hide Stored;
    SetupStored(s);
  }

  predicate Selection(chosen: seq<nat>) {
    forall j | 0 <= j < |chosen| :: chosen[j] < UPDATES
  }

  /** Any selection of the updates, in any order. */
  function UpdatedAll(s: Setup, chosen: seq<nat>): (c: Config)
    requires Selection(chosen)
    ensures c.Ok()
  {
    if chosen == [] then EMPTY
    else Updated(s, chosen[|chosen| - 1], UpdatedAll(s, chosen[..|chosen| - 1]))
  }

  lemma {:induction false} SelectionIsPartial(s: Setup, chosen: seq<nat>)
    requires s.Ok() && Selection(chosen)
    ensures Partial(s, UpdatedAll(s, chosen))
    decreases |chosen|
  {
    hide Partial, Updated;
    if chosen == [] {
      EmptyIsPartial(s);
    } else {
      SelectionIsPartial(s, chosen[..|chosen| - 1]);
      UpdateKeepsPartial(s, chosen[|chosen| - 1], UpdatedAll(s, chosen[..|chosen| - 1]));
    }
  }

  lemma EmptyIsPartial(s: Setup)
    ensures Partial(s, EMPTY)
  {
  }

  // ---- safety at every moment

  /** Nothing is emitted, or it leaves where the finished router sends it, with the addresses the
      finished router writes or with zeros. */
  predicate SafeOutput(s: Setup, ingress: nat, f: Frame, out: (Action, Frame)) {
    out.0.Redirect? ==>
      var (action, sent) := Route(Full(s), ingress, f);
      && out.0 == action
      && |f| >= ETH_HLEN
      && (out.1 == sent || out.1 == WithMacs(f, ZERO_MAC, ZERO_MAC))
  }

  /** Each entry, and each of the two addresses of a pair, is set or still initial. */
  ghost predicate Patchy(s: Setup, c: Config) {
    && c.Ok()
    && (forall i | 0 <= i < 3 :: c.ifindex[i] == 0 || c.ifindex[i] == Full(s).ifindex[i])
    && (forall i | 0 <= i < 3 :: c.macs[i].dst == ZERO_MAC || c.macs[i].dst == Full(s).macs[i].dst)
    && (forall i | 0 <= i < 3 :: c.macs[i].src == ZERO_MAC || c.macs[i].src == Full(s).macs[i].src)
    && (forall slot | slot in c.txPort :: c.txPort[slot] == Full(s).txPort[slot])
  }

  lemma PartialIsPatchy(s: Setup, c: Config)
    requires Partial(s, c)
    ensures Patchy(s, c)
  {
  }

  /** Nothing is emitted, or it leaves where the finished router sends it, and each address of the
      frame is the one the finished router writes or zeros. */
  predicate SafeUpToAddresses(s: Setup, ingress: nat, f: Frame, out: (Action, Frame)) {
    out.0.Redirect? ==>
      var (action, sent) := Route(Full(s), ingress, f);
      && out.0 == action
      && |f| >= ETH_HLEN && |out.1| == |sent| == |f| && out.1[12..] == f[12..]
      && (out.1[..6] == sent[..6] || out.1[..6] == ZERO_MAC)
      && (out.1[6..12] == sent[6..12] || out.1[6..12] == ZERO_MAC)
  }

  lemma PatchyIsSafe(s: Setup, c: Config, ingress: nat, f: Frame)
    requires s.Ok() && Patchy(s, c) && ingress > 0
    ensures SafeUpToAddresses(s, ingress, f, Route(c, ingress, f))
    ensures Route(c, ingress, f).0.Redirect? ==> Decide(c, ingress, f) == Decide(Full(s), ingress, f)
  {
    hide WithMacs, ClientDecision, EtherType;
    var d := Decide(c, ingress, f);
    if !d.Refuse? && d.slot in c.txPort {
      SameDecision(s, c, ingress, f);
      assert d.slot == 0 || d.slot == 1 || d.slot == 2;
    }
  }

  lemma PartialIsSafe(s: Setup, c: Config, ingress: nat, f: Frame)
    requires s.Ok() && Partial(s, c) && ingress > 0
    ensures SafeOutput(s, ingress, f, Route(c, ingress, f))
  {
    hide WithMacs, ClientDecision, EtherType;
    var d := Decide(c, ingress, f);
    if !d.Refuse? && d.slot in c.txPort {
      SameDecision(s, c, ingress, f);
      assert d.slot == 0 || d.slot == 1 || d.slot == 2;
    }
  }

  /** A partly configured router that does not refuse a frame decides like the finished one. */
  lemma SameDecision(s: Setup, c: Config, ingress: nat, f: Frame)
    requires s.Ok() && Patchy(s, c) && ingress > 0 && !Decide(c, ingress, f).Refuse?
    ensures Decide(Full(s), ingress, f) == Decide(c, ingress, f)
  {
    hide ClientDecision, EtherType;
    assert c.ifindex[0] == 0 || c.ifindex[0] == Full(s).ifindex[0];
    assert c.ifindex[1] == 0 || c.ifindex[1] == Full(s).ifindex[1];
    assert c.ifindex[2] == 0 || c.ifindex[2] == Full(s).ifindex[2];
  }

  /** The entry that tells where a frame the finished router lets through came from. */
  function ArrivalRole(s: Setup, ingress: nat): nat {
    if ingress == s.client then 0 else 1
  }

  /** The verdict of a partly configured router: a frame the finished router refuses, or whose arrival
      interface is not known yet, is dropped; one whose transmit slot is missing is aborted; any other
      one is emitted where the finished router sends it. */
  function Verdict(s: Setup, arrivalKnown: bool, slotFilled: bool, ingress: nat, f: Frame): Action {
    if Decide(Full(s), ingress, f).Refuse? || !arrivalKnown then Drop
    else if !slotFilled then Aborted
    else Route(Full(s), ingress, f).0
  }

  lemma PatchyVerdict(s: Setup, c: Config, ingress: nat, f: Frame)
    requires s.Ok() && Patchy(s, c) && ingress > 0
    ensures var d := Decide(Full(s), ingress, f);
      Route(c, ingress, f).0
      == Verdict(s, c.ifindex[ArrivalRole(s, ingress)] != 0, !d.Refuse? && d.slot in c.txPort, ingress, f)
  {
    hide WithMacs, ClientDecision, EtherType;
    assert c.ifindex[0] == 0 || c.ifindex[0] == Full(s).ifindex[0];
    assert c.ifindex[1] == 0 || c.ifindex[1] == Full(s).ifindex[1];
    assert c.ifindex[2] == 0 || c.ifindex[2] == Full(s).ifindex[2];
    if !Decide(c, ingress, f).Refuse? {
      SameDecision(s, c, ingress, f);
    }
  }

  /** The interface numbers and slots that are set are those chosen. */
  predicate SetAsChosen(c: Config, chosen: set<nat>)
    requires c.Ok()
  {
    && (forall i: nat | i < 3 :: c.ifindex[i] != 0 <==> i in chosen)
    && (forall i: nat | i < 3 :: i in c.txPort <==> 3 + i in chosen)
  }

  lemma UpdateSetsChosen(s: Setup, i: nat, c: Config, chosen: set<nat>)
    requires s.Ok() && i < UPDATES && c.Ok() && SetAsChosen(c, chosen)
    ensures SetAsChosen(Updated(s, i, c), chosen + {i})
  {
    hide Stored;
    SetupStored(s);
  }

  function Among(chosen: seq<nat>): (r: set<nat>)
    ensures forall i :: i in r <==> i in chosen
  {
    set i | i in chosen
  }

  lemma {:induction false} SelectedEntries(s: Setup, chosen: seq<nat>)
    requires s.Ok() && Selection(chosen)
    ensures SetAsChosen(UpdatedAll(s, chosen), Among(chosen))
    decreases |chosen|
  {
    hide Updated;
    if chosen == [] {
    } else {
      hide SetAsChosen;
      var before, last := chosen[..|chosen| - 1], chosen[|chosen| - 1];
      SelectedEntries(s, before);
      UpdateSetsChosen(s, last, UpdatedAll(s, before), Among(before));
      assert chosen == before + [last];
      assert Among(chosen) == Among(before) + {last};
    }
  }

  /** Configuration is safe for every selection of the updates and every frame, and the verdict depends
      only on whether the arrival interface and the transmit slot are among the chosen updates. */
  lemma AnySelectionIsSafe(s: Setup, chosen: seq<nat>, ingress: nat, f: Frame)
    requires s.Ok() && ingress > 0 && Selection(chosen)
    ensures SafeOutput(s, ingress, f, Route(UpdatedAll(s, chosen), ingress, f))
    ensures var d := Decide(Full(s), ingress, f);
      Route(UpdatedAll(s, chosen), ingress, f).0
      == Verdict(s, ArrivalRole(s, ingress) in chosen, !d.Refuse? && 3 + d.slot in chosen, ingress, f)
  {
    hide UpdatedAll, Route, Decide, Verdict;
    SelectedEntries(s, chosen);
    PartialIsPatchy(s, UpdatedAll(s, chosen)) by {
      SelectionIsPartial(s, chosen);
    }
    PatchyVerdict(s, UpdatedAll(s, chosen), ingress, f);
    SelectionIsPartial(s, chosen);
    PartialIsSafe(s, UpdatedAll(s, chosen), ingress, f);
  }

  // ---- the script in order

  function FirstUpdates(n: nat): (chosen: seq<nat>)
    ensures |chosen| == n && forall i | 0 <= i < n :: chosen[i] == i
  {
    seq(n, i => i)
  }

  /** The maps after the first `n` updates of the script. */
  function ConfigAt(s: Setup, n: nat): (c: Config)
    requires n <= UPDATES
    ensures c.Ok()
  {
    UpdatedAll(s, FirstUpdates(n))
  }

  lemma OneUpdate(s: Setup, n: nat)
    requires n < UPDATES
    ensures ConfigAt(s, n + 1) == Updated(s, n, ConfigAt(s, n))
  {
    assert FirstUpdates(n + 1)[..n] == FirstUpdates(n);
  }

  /** Which entries are set after `n` updates. */
  predicate SetInOrder(s: Setup, n: nat, c: Config)
    requires c.Ok()
  {
    && (forall i | 0 <= i < 3 :: c.ifindex[i] == if i < n then Full(s).ifindex[i] else 0)
    && (forall i | 0 <= i < 3 :: i in c.txPort <==> 3 + i < n)
    && (forall i | 0 <= i < 3 && 3 + i < n :: c.txPort[i] == Full(s).txPort[i])
    && (forall i | 0 <= i < 3 :: c.macs[i] == if 6 + i < n then Full(s).macs[i] else ZERO_PAIR)
  }

  lemma UpdateSetsNext(s: Setup, n: nat, c: Config)
    requires s.Ok() && n < UPDATES && c.Ok() && SetInOrder(s, n, c)
    ensures SetInOrder(s, n + 1, Updated(s, n, c))
  {
    hide Stored;
    SetupStored(s);
  }

  lemma {:induction false} ScriptSetsInOrder(s: Setup, n: nat)
    requires s.Ok() && n <= UPDATES
    ensures SetInOrder(s, n, ConfigAt(s, n)) && Partial(s, ConfigAt(s, n))
    decreases n
  {
    hide Updated, Partial;
    SelectionIsPartial(s, FirstUpdates(n));
    if n == 0 {
    } else {
      hide SetInOrder, UpdatedAll;
      ScriptSetsInOrder(s, n - 1);
      OneUpdate(s, n - 1);
      UpdateSetsNext(s, n - 1, ConfigAt(s, n - 1));
    }
  }

  lemma AllUpdatesMakeFull(s: Setup)
    requires s.Ok()
    ensures ConfigAt(s, UPDATES) == Full(s)
  {
    ScriptSetsInOrder(s, UPDATES);
    var c := ConfigAt(s, UPDATES);
    assert c.ifindex == Full(s).ifindex && c.macs == Full(s).macs && c.txPort == Full(s).txPort;
  }

  // ---- the policy

  /** TCP over IPv4 to port 80, with its headers inside the frame. */
  predicate IsHttpFrame(f: Frame) {
    && |f| >= 34 && EtherType(f) == ETH_P_IP && IpProtocol(f) == IPPROTO_TCP
    && 20 <= IpHeaderLength(f) <= |f| - 34
    && Be16(f, 14 + IpHeaderLength(f) + 2) == 80
  }

  /** IPv4 with its header inside the frame that is ICMP, DNS over UDP or TCP, or HTTPS. */
  predicate IsServedByF(f: Frame) {
    && |f| >= 34 && EtherType(f) == ETH_P_IP && 20 <= IpHeaderLength(f) <= |f| - 14
    && var transport := 14 + IpHeaderLength(f);
       || IpProtocol(f) == IPPROTO_ICMP
       || (IpProtocol(f) == IPPROTO_UDP && transport + 8 <= |f| && Be16(f, transport + 2) == 53)
       || (IpProtocol(f) == IPPROTO_TCP && transport + 20 <= |f| && Be16(f, transport + 2) in {53, 443})
  }

  /** Reading inverts printing: the classes of printed frames, whatever else they hold. */
  lemma ClassesOfPrinted(macs: seq<Byte>, ip: Ipv4, protocol: Byte, sport: Word, dport: Word, rest: seq<Byte>)
    requires |macs| == 12 && ip.Ok() && |rest| >= 16
    ensures var f := PrintIp(macs, ip, protocol, PrintPorts(sport, dport, rest));
      && IsIpv4(f) && !IsArp(f)
      && (IsHttpFrame(f) <==> protocol == 6 && dport == 80)
      && (IsServedByF(f) <==> protocol == 1 || (protocol == 17 && dport == 53) || (protocol == 6 && dport in {53, 443}))
  {
    hide PrintIp, PrintPorts, Be16, Be32, IpHeaderLength;
    var ports := PrintPorts(sport, dport, rest);
    var f := PrintIp(macs, ip, protocol, ports);
    PrintedIp(macs, ip, protocol, ports);
    EtherTypeBytes(f);
    WordBehind(f, 14 + IpHeaderLength(f), 2);
  }

  /** The addresses written toward the interface a frame leaves by. */
  function MacsToward(s: Setup, ifindex: nat): MacPair {
    if ifindex == s.f then s.toF else if ifindex == s.z then s.toZ else s.toClient
  }

  /** The finished router: nothing from Z is emitted, exactly the client's HTTP frames leave toward
      Z, exactly its ARP, ICMP, DNS and HTTPS frames toward F, exactly ARP and IPv4 from F toward the
      client; no frame leaves where it came in, ARP frames are unchanged, and every frame keeps its
      length and its bytes from the EtherType on. */
  lemma Policy(s: Setup, ingress: nat, f: Frame)
    requires s.Ok()
    ensures var (action, out) := Route(Full(s), ingress, f);
      && action in {Drop, Redirect(s.client), Redirect(s.f), Redirect(s.z)}
      && (ingress == s.z ==> action == Drop)
      && (action == Redirect(s.z) <==> ingress == s.client && IsHttpFrame(f))
      && (action == Redirect(s.f) <==> ingress == s.client && (IsArp(f) || IsServedByF(f)))
      && (action == Redirect(s.client) <==>
            ingress == s.f && (IsArp(f) || (|f| >= 34 && EtherType(f) == ETH_P_IP)))
      && action != Redirect(ingress)
      && |out| == |f| && (|f| >= ETH_HLEN ==> out[12..] == f[12..])
      && (IsArp(f) || action == Drop ==> out == f)
      && (action.Redirect? && !IsArp(f) ==>
            out[..12] == MacsToward(s, action.ifindex).dst + MacsToward(s, action.ifindex).src)
  {
    hide IpHeaderLength, Be16;
    var (action, out) := Route(Full(s), ingress, f);
    if action.Redirect? && !IsArp(f) {
      assert out[..12] == out[..6] + out[6..12];
    }
  }

  // ---- runs of loader and traffic

  /** A packet on its way through the program: after how many updates each of its reads took place. */
  datatype Flight = Flight(ingress: nat, frame: Frame, moments: seq<nat>)

  /** Updates made so far, and the packets that arrived. */
  datatype System = System(loaded: nat, flights: seq<Flight>)

  datatype Event = Load | Arrive(ingress: nat, frame: Frame) | Read(flight: nat)

  const ATTACHED := System(0, [])

  predicate Enabled(y: System, e: Event) {
    match e
    case Load => y.loaded < UPDATES
    case Arrive(ingress, _) => ingress > 0
    case Read(i) => i < |y.flights| && |y.flights[i].moments| < READS
  }

  function Apply(y: System, e: Event): System
    requires Enabled(y, e)
  {
    match e
    case Load => y.(loaded := y.loaded + 1)
    case Arrive(ingress, f) => y.(flights := y.flights + [Flight(ingress, f, [])])
    case Read(i) =>
      var flight := y.flights[i];
      y.(flights := y.flights[i := flight.(moments := flight.moments + [y.loaded])])
  }

  predicate Valid(y: System, events: seq<Event>)
    decreases |events|
  {
    events == [] || (Enabled(y, events[0]) && Valid(Apply(y, events[0]), events[1..]))
  }

  function Run(y: System, events: seq<Event>): System
    requires Valid(y, events)
    decreases |events|
  {
    if events == [] then y else Run(Apply(y, events[0]), events[1..])
  }

  predicate InOrder(flight: Flight, loaded: nat) {
    && flight.ingress > 0
    && (forall i | 0 <= i < |flight.moments| :: flight.moments[i] <= loaded)
    && (forall i, j | 0 <= i < j < |flight.moments| :: flight.moments[i] <= flight.moments[j])
  }

  predicate Inv(y: System) {
    y.loaded <= UPDATES && forall i | 0 <= i < |y.flights| :: InOrder(y.flights[i], y.loaded)
  }

  lemma {:induction false} RunKeepsInv(y: System, events: seq<Event>)
    requires Inv(y) && Valid(y, events)
    ensures Inv(Run(y, events))
    decreases |events|
  {
    if events == [] {
    } else {
      RunKeepsInv(Apply(y, events[0]), events[1..]);
    }
  }

  /** A packet that has made all its reads. */
  predicate Complete(flight: Flight) {
    |flight.moments| == READS && forall i | 0 <= i < READS :: flight.moments[i] <= UPDATES
  }

  /** What its reads found. */
  function ReadsOf(s: Setup, flight: Flight): (found: seq<Config>)
    requires Complete(flight)
    ensures |found| == READS && forall i | 0 <= i < READS :: found[i] == ConfigAt(s, flight.moments[i])
  {
    seq(READS, i requires 0 <= i < READS => ConfigAt(s, flight.moments[i]))
  }

  function Output(s: Setup, flight: Flight): (Action, Frame)
    requires Complete(flight)
  {
    Route(Seen(ReadsOf(s, flight)), flight.ingress, flight.frame)
  }

  /** The update of its address pair lands between the packet's reads of the two addresses. */
  predicate Torn(s: Setup, flight: Flight)
    requires Complete(flight)
  {
    var d := Decide(Full(s), flight.ingress, flight.frame);
    && d.Routed? && flight.moments[3] <= 6 + d.slot < flight.moments[4]
    && Full(s).macs[d.slot].dst != ZERO_MAC && Full(s).macs[d.slot].src != ZERO_MAC
  }

  /** Whatever partly configured maps the reads meet, what the packet goes by is patchy at most. */
  lemma PatchedTogether(s: Setup, found: seq<Config>)
    requires |found| == READS && forall i | 0 <= i < READS :: Partial(s, found[i])
    ensures (forall i | 0 <= i < READS :: found[i].Ok()) && Patchy(s, Seen(found))
  {
    hide Full;
    assert Partial(s, found[0]) && Partial(s, found[1]) && Partial(s, found[2]);
    assert Partial(s, found[3]) && Partial(s, found[4]) && Partial(s, found[5]);
  }

  lemma NumbersAt(s: Setup, n: nat, i: nat)
    requires s.Ok() && n <= UPDATES && i < 3
    ensures ConfigAt(s, n).ifindex[i] != 0 <==> i < n
  {
    hide ConfigAt;
    ScriptSetsInOrder(s, n);
  }

  lemma SlotsAt(s: Setup, n: nat)
    requires s.Ok() && n <= UPDATES
    ensures forall i: nat | i < 3 :: i in ConfigAt(s, n).txPort <==> 3 + i < n
  {
    hide ConfigAt;
    ScriptSetsInOrder(s, n);
  }

  lemma PairsAt(s: Setup, n: nat)
    requires s.Ok() && n <= UPDATES
    ensures forall i: nat | i < 3 :: ConfigAt(s, n).macs[i] == if 6 + i < n then Full(s).macs[i] else ZERO_PAIR
  {
    hide ConfigAt;
    ScriptSetsInOrder(s, n);
  }

  lemma SeenIsPatchy(s: Setup, flight: Flight)
    requires s.Ok() && Complete(flight)
    ensures var c := Seen(ReadsOf(s, flight));
      && Patchy(s, c)
      && (forall i: nat | i < 3 :: c.ifindex[i] != 0 <==> i < flight.moments[i])
      && (forall i: nat | i < 3 :: i in c.txPort <==> 3 + i < flight.moments[5])
      && forall i | 0 <= i < 3 ::
           && c.macs[i].dst == (if 6 + i < flight.moments[3] then Full(s).macs[i].dst else ZERO_MAC)
           && c.macs[i].src == (if 6 + i < flight.moments[4] then Full(s).macs[i].src else ZERO_MAC)
  {
    hide ConfigAt, Patchy, Partial;
    var found := ReadsOf(s, flight);
    forall i | 0 <= i < READS
      ensures Partial(s, found[i])
    {
      ScriptSetsInOrder(s, flight.moments[i]);
    }
    PatchedTogether(s, found);
    hide SetInOrder, Full;
    NumbersAt(s, flight.moments[0], 0);
    NumbersAt(s, flight.moments[1], 1);
    NumbersAt(s, flight.moments[2], 2);
    PairsAt(s, flight.moments[3]);
    PairsAt(s, flight.moments[4]);
    SlotsAt(s, flight.moments[5]);
  }

  lemma UntornIsSafe(s: Setup, flight: Flight)
    requires s.Ok() && Complete(flight) && InOrder(flight, UPDATES) && Output(s, flight).0.Redirect?
    ensures SafeOutput(s, flight.ingress, flight.frame, Output(s, flight)) <==> !Torn(s, flight)
  {
    hide ConfigAt, ClientDecision, EtherType, WithMacs, Patchy, Seen, ReadsOf;
    SeenIsPatchy(s, flight);
    PatchyIsSafe(s, Seen(ReadsOf(s, flight)), flight.ingress, flight.frame);
  }

  lemma SettledReads(s: Setup, flight: Flight)
    requires s.Ok() && Complete(flight) && InOrder(flight, UPDATES) && flight.moments[0] == UPDATES
    ensures Seen(ReadsOf(s, flight)) == Full(s)
  {
    hide ConfigAt;
    AllUpdatesMakeFull(s);
    SeenAtOnce(Full(s));
    assert ReadsOf(s, flight) == seq(READS, i => Full(s));
  }

  /** An emitted frame that is safe up to its addresses obeys the finished router's policy. */
  lemma SafeObeysPolicy(s: Setup, ingress: nat, f: Frame, out: (Action, Frame))
    requires s.Ok() && SafeUpToAddresses(s, ingress, f, out)
    ensures ingress == s.z ==> !out.0.Redirect?
    ensures out.0 == Redirect(s.z) ==> ingress == s.client && IsHttpFrame(f)
    ensures out.0 != Redirect(ingress)
  {
    hide IsHttpFrame, IsServedByF, Route;
    Policy(s, ingress, f);
  }

  /** Whatever it emits, the router changes nothing but the addresses, and nothing at all of ARP. */
  lemma RouteKeeps(c: Config, ingress: nat, f: Frame)
    requires c.Ok()
    ensures var out := Route(c, ingress, f).1;
      |out| == |f| && (|f| >= ETH_HLEN ==> out[12..] == f[12..]) && (IsArp(f) ==> out == f)
  {
    hide ClientDecision, WithMacs;
  }

  /** In every run of loader and traffic, updates landing anywhere among the reads of any number of
      packets: what is emitted leaves where the finished router sends it, with each address final or
      zeros, so nothing from Z is emitted, only client HTTP frames go to Z, nothing goes back out of its
      arrival interface, and nothing after the addresses changes. The address pair is all final or all
      zeros if and only if its update does not land between the reads of the two addresses. The verdict
      is the finished router's exactly if the arrival interface and the transmit slot were set when they
      were read, and a packet whose first read comes after the nine updates gets its output. */
  lemma EveryRunIsSafe(s: Setup, events: seq<Event>, k: nat)
    requires s.Ok() && Valid(ATTACHED, events)
    requires k < |Run(ATTACHED, events).flights| && |Run(ATTACHED, events).flights[k].moments| == READS
    ensures var flight := Run(ATTACHED, events).flights[k];
      var Flight(ingress, f, moments) := flight;
      && Complete(flight)
      && var out := Output(s, flight);
      && SafeUpToAddresses(s, ingress, f, out)
      && var d, role := Decide(Full(s), ingress, f), ArrivalRole(s, ingress);
      && out.0 == Verdict(s, role < moments[role], !d.Refuse? && 3 + d.slot < moments[5], ingress, f)
      && (SafeOutput(s, ingress, f, out) <==> !(out.0.Redirect? && Torn(s, flight)))
      && (ingress == s.z ==> !out.0.Redirect?)
      && (out.0 == Redirect(s.z) ==> ingress == s.client && IsHttpFrame(f))
      && out.0 != Redirect(ingress)
      && |out.1| == |f| && (|f| >= ETH_HLEN ==> out.1[12..] == f[12..])
      && (IsArp(f) ==> out.1 == f)
      && (moments[0] == UPDATES ==> out == Route(Full(s), ingress, f))
  {
    hide ConfigAt, IsHttpFrame, ClientDecision, Patchy, Seen, ReadsOf, Run, Valid, Torn, SafeOutput;
    hide Route, Decide, Verdict, SafeUpToAddresses, Full, EtherType, SetInOrder;
    RunKeepsInv(ATTACHED, events);
    var flight := Run(ATTACHED, events).flights[k];
    var c := Seen(ReadsOf(s, flight));
    SeenIsPatchy(s, flight);
    PatchyIsSafe(s, c, flight.ingress, flight.frame);
    PatchyVerdict(s, c, flight.ingress, flight.frame);
    SafeObeysPolicy(s, flight.ingress, flight.frame, Output(s, flight));
    RouteKeeps(c, flight.ingress, flight.frame);
    if Output(s, flight).0.Redirect? {
      UntornIsSafe(s, flight);
    } else {
      SilentIsSafe(s, flight.ingress, flight.frame, Output(s, flight));
    }
    if flight.moments[0] == UPDATES {
      SettledReads(s, flight);
    }
  }

  lemma SilentIsSafe(s: Setup, ingress: nat, f: Frame, out: (Action, Frame))
    requires !out.0.Redirect?
    ensures SafeOutput(s, ingress, f, out)
  {
  }

  // ---- a run that tears an address pair

  ghost predicate Leads(y: System, flights: seq<Flight>) {
    exists events :: Valid(y, events) && Run(y, events).flights == flights
  }

  lemma LeadsNow(y: System)
    ensures Leads(y, y.flights)
  {
    assert Valid(y, []) && Run(y, []) == y;
  }

  lemma LeadsAfter(y: System, e: Event, flights: seq<Flight>)
    requires Enabled(y, e) && Leads(Apply(y, e), flights)
    ensures Leads(y, flights)
  {
    hide Enabled, Apply;
    var rest :| Valid(Apply(y, e), rest) && Run(Apply(y, e), rest).flights == flights;
    assert ([e] + rest)[1..] == rest;
    assert Valid(y, [e] + rest) && Run(y, [e] + rest).flights == flights;
  }

  lemma {:induction false} LeadsAfterLoads(y: System, n: nat, flights: seq<Flight>)
    requires y.loaded + n <= UPDATES && Leads(y.(loaded := y.loaded + n), flights)
    ensures Leads(y, flights)
    decreases n
  {
    hide Leads;
    if n == 0 {
      assert y.(loaded := y.loaded + 0) == y;
    } else {
      var z := Apply(y, Load);
      assert y.(loaded := y.loaded + n) == z.(loaded := z.loaded + (n - 1));
      LeadsAfterLoads(z, n - 1, flights);
      LeadsAfter(y, Load, flights);
    }
  }

  /** One packet in flight that makes `n` reads. */
  lemma {:induction false} LeadsAfterReads(loaded: nat, f: Flight, n: nat, flights: seq<Flight>)
    requires |f.moments| + n <= READS
    requires Leads(System(loaded, [f.(moments := f.moments + seq(n, i => loaded))]), flights)
    ensures Leads(System(loaded, [f]), flights)
    decreases n
  {
    hide Leads;
    if n == 0 {
      assert f.moments + seq(0, i => loaded) == f.moments;
    } else {
      var g := f.(moments := f.moments + [loaded]);
      assert g.moments + seq(n - 1, i => loaded) == f.moments + seq(n, i => loaded);
      LeadsAfterReads(loaded, g, n - 1, flights);
      assert Apply(System(loaded, [f]), Read(0)) == System(loaded, [g]);
      LeadsAfter(System(loaded, [f]), Read(0), flights);
    }
  }

  lemma LeadsToTorn(ingress: nat, f: Frame)
    requires ingress > 0
    ensures Leads(ATTACHED, [Flight(ingress, f, [8, 8, 8, 8, 9, 9])])
  {
    hide Leads;
    var arrived, halfway := Flight(ingress, f, []), Flight(ingress, f, [8, 8, 8, 8]);
    var flight := Flight(ingress, f, [8, 8, 8, 8, 9, 9]);
    LeadsNow(System(9, [flight]));
    assert halfway.moments + seq(2, i => 9) == flight.moments;
    LeadsAfterReads(9, halfway, 2, [flight]);
    LeadsAfterLoads(System(8, [halfway]), 1, [flight]);
    assert arrived.moments + seq(4, i => 8) == halfway.moments;
    LeadsAfterReads(8, arrived, 4, [flight]);
    LeadsAfterLoads(System(0, [arrived]), 8, [flight]);
    assert Apply(ATTACHED, Arrive(ingress, f)) == System(0, [arrived]);
    LeadsAfter(ATTACHED, Arrive(ingress, f), [flight]);
  }

  lemma TornFlight(s: Setup, f: Frame, flight: Flight)
    requires s.Ok() && |f| >= 34 && EtherType(f) == ETH_P_IP
    requires s.toClient.dst != ZERO_MAC && s.toClient.src != ZERO_MAC
    requires flight == Flight(s.f, f, [8, 8, 8, 8, 9, 9])
    ensures Complete(flight) && Output(s, flight) == (Redirect(s.client), WithMacs(f, ZERO_MAC, s.toClient.src))
    ensures !SafeOutput(s, s.f, f, Output(s, flight))
  {
    hide ConfigAt, ClientDecision, EtherType, WithMacs;
    var found := ReadsOf(s, flight);
    assert found[0] == found[1] == found[2] == found[3] == ConfigAt(s, 8) && found[4] == found[5] == ConfigAt(s, 9);
    ScriptSetsInOrder(s, 8);
    ScriptSetsInOrder(s, 9);
    UntornIsSafe(s, flight);
  }

  /** With real addresses configured, every IPv4 frame from F can leave with the address pair torn:
      four reads before the last update and two after it. */
  lemma TornRun(s: Setup, f: Frame)
    requires s.Ok() && |f| >= 34 && EtherType(f) == ETH_P_IP
    requires s.toClient.dst != ZERO_MAC && s.toClient.src != ZERO_MAC
    ensures var flight := Flight(s.f, f, [8, 8, 8, 8, 9, 9]);
      && Leads(ATTACHED, [flight])
      && Complete(flight) && Output(s, flight) == (Redirect(s.client), WithMacs(f, ZERO_MAC, s.toClient.src))
      && !SafeOutput(s, s.f, f, Output(s, flight))
  {
    TornFlight(s, f, Flight(s.f, f, [8, 8, 8, 8, 9, 9]));
    LeadsToTorn(s.f, f);
  }

  // ---- the loader itself

  /** The script's updates, one after the other, on the maps of a freshly loaded router. */
  method Populate(r: Router, s: Setup)
    requires r.Valid() && s.Ok() && r.Contents() == EMPTY
    modifies r, r.ifindexMap, r.macMap
    ensures r.Valid() && r.ifindexMap == old(r.ifindexMap) && r.macMap == old(r.macMap)
    ensures r.Contents() == Full(s)
  {
    hide Stored;
    SetupStored(s);
    r.ifindexMap[0] := Stored(s.client);
    r.ifindexMap[1] := Stored(s.f);
    r.ifindexMap[2] := Stored(s.z);
    r.txPort := r.txPort[TX_TO_F := Stored(s.f)];
    r.txPort := r.txPort[TX_TO_Z := Stored(s.z)];
    r.txPort := r.txPort[TX_TO_CLIENT := Stored(s.client)];
    r.macMap[TX_TO_F] := s.toF;
    r.macMap[TX_TO_Z] := s.toZ;
    r.macMap[TX_TO_CLIENT] := s.toClient;
    assert r.Contents().ifindex == [s.client, s.f, s.z];
    assert r.Contents().macs == [s.toF, s.toZ, s.toClient];
  }
}
