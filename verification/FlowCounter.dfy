/** The TCP flow counter: from frame to key to map entry, frame by frame and on any number of CPUs. */
module FlowCounter {
  import opened Wrappers
  import opened Bytes
  import opened Xdp
  import opened HashMaps
  import opened Printing
  import opened SharedCounter
  import opened FlowExactness
  import DrainLoops

  datatype Flow = Flow(srcIp: DWord, dstIp: DWord, srcPort: Word, dstPort: Word, protocol: Byte)

  /** `struct flow_key key = {}`. */
  const ZERO_FLOW := Flow(0, 0, 0, 0, 0)

  /** The key of a frame, or nothing for a frame that is not counted. The header length is not
      checked: a short IHL reads the ports from inside the IPv4 header. */
  function FlowOf(f: Frame): Option<Flow> {
    if |f| < 34 || EtherType(f) != ETH_P_IP || IpProtocol(f) != IPPROTO_TCP then None
    else
      var tcp := 14 + IpHeaderLength(f);
      if tcp + 20 > |f| then None
      else Some(Flow(Be32(f, 26), Be32(f, 30), Be16(f, tcp), Be16(f, tcp + 2), f[23]))
  }

  /** Which frames are counted: IPv4 TCP frames with 20 bytes behind the header length they claim. */
  lemma CountedFrames(f: Frame)
    ensures FlowOf(f).Some? <==>
            |f| >= 34 && f[12] == 0x08 && f[13] == 0x00 && f[23] == 6 && 14 + f[14] % 0x10 * 4 + 20 <= |f|
  {
  }

  /** Reading inverts printing: whatever the rest of the headers and the payload hold, a TCP frame is
      counted under its own addresses and ports. */
  lemma FlowOfPrinted(macs: seq<Byte>, ip: Ipv4, sport: Word, dport: Word, rest: seq<Byte>)
    requires |macs| == 12 && ip.Ok() && |rest| >= 16
    ensures FlowOf(PrintIp(macs, ip, 6, PrintPorts(sport, dport, rest)))
         == Some(Flow(ip.src, ip.dst, sport, dport, 6))
  {
    hide PrintIp, PrintPorts, Be16, Be32, IpHeaderLength;
    var ports := PrintPorts(sport, dport, rest);
    var f := PrintIp(macs, ip, 6, ports);
    PrintedIp(macs, ip, 6, ports);
    EtherTypeBytes(f);
    WordBehind(f, 14 + IpHeaderLength(f), 0);
    WordBehind(f, 14 + IpHeaderLength(f), 2);
  }

  /** The map after one frame. */
  function Counted(values: map<Flow, nat>, capacity: nat, f: Frame): map<Flow, nat> {
    match FlowOf(f)
    case None => values
    case Some(k) =>
      if k in values then values[k := values[k] + 1]
      else if |values| < capacity then values[k := 1]
      else values
  }

  function CountedAll(values: map<Flow, nat>, capacity: nat, frames: seq<Frame>): map<Flow, nat> {
    if frames == [] then values
    else Counted(CountedAll(values, capacity, frames[..|frames| - 1]), capacity, frames[|frames| - 1])
  }

  method XdpFlowCounter(ctx: XdpMd, m: HashMap<Flow>) returns (action: Action)
    requires m.Valid()
    modifies m
    ensures m.Valid() && action == Pass
    ensures m.values == Counted(old(m.values), m.capacity, ctx.packet[..])
  {
    var f := ctx.packet[..];
    var key := FlowOf(f);
    if key.Some? {
      var value := m.Lookup(key.value);
      if value.Some? {
        var added := m.Update(key.value, value.value + 1);
      } else {
        var inserted := m.Update(key.value, 1);
      }
    }
    return Pass;
  }

  // ---- frames handled one after another

  function Occurrences(frames: seq<Frame>, k: Flow): nat {
    if frames == [] then 0
    else Occurrences(frames[..|frames| - 1], k) + (if FlowOf(frames[|frames| - 1]) == Some(k) then 1 else 0)
  }

  /** Frame by frame: every entry counts all the frames of its flow; a flow that was seen is missing only from a
      full map; every key is a TCP key. */
  lemma {:induction false} CountsAreExact(capacity: nat, frames: seq<Frame>)
    ensures var values := CountedAll(map[], capacity, frames);
      && |values| <= capacity
      && (forall k | k in values :: values[k] == Occurrences(frames, k) && k.protocol == IPPROTO_TCP)
      && (forall k | k !in values && Occurrences(frames, k) > 0 :: |values| == capacity)
    decreases |frames|
  {
    if frames == [] {
    } else {
      var init, f := frames[..|frames| - 1], frames[|frames| - 1];
      CountsAreExact(capacity, init);
      var before := CountedAll(map[], capacity, init);
      if FlowOf(f).Some? {
        var k := FlowOf(f).value;
        InsertedSize(before, k, 1);
        InsertedSize(before, k, if k in before then before[k] + 1 else 0);
      }
    }
  }

  // ---- frames handled by several CPUs at once

  /** CPU `c` handles a frame with no other step in between; the insert is refused when the map is full. */
  function Undisturbed(s: State<Flow>, c: nat, f: Frame): State<Flow>
    requires Inv(s) && Enabled(s, Lookup(c, f))
  {
    var t := Apply(s, Lookup(c, f));
    if t.cpus[c].Holding? then Apply(t, Add(c))
    else if |s.table| < s.capacity then Apply(t, Insert(c))
    else Apply(t, Refused(c))
  }

  lemma AdditionCounts(t: State<Flow>, c: nat)
    requires Inv(t) && Enabled(t, Add(c))
    requires t.cpus[c].key in t.table && t.table[t.cpus[c].key] == t.cpus[c].elem
    ensures var k := t.cpus[c].key;
      Counts(Apply(t, Add(c))) == Counts(t)[k := InMap(t, k) + 1]
  {
  }

  lemma InsertionCounts(t: State<Flow>, c: nat)
    requires Inv(t) && Enabled(t, Insert(c))
    ensures Counts(Apply(t, Insert(c))) == Counts(t)[t.cpus[c].key := 1]
  {
  }

  /** An undisturbed frame changes the map as the program does on its own. */
  lemma UndisturbedIsCounted(s: State<Flow>, c: nat, f: Frame)
    requires Inv(s) && s.parse == FlowOf && Enabled(s, Lookup(c, f))
    ensures Counts(Undisturbed(s, c, f)) == Counted(Counts(s), s.capacity, f)
  {
    hide FlowOf, InMap;
    var t, k := Apply(s, Lookup(c, f)), s.parse(f).value;
    StepKeepsInv(s, Lookup(c, f));
    assert Counts(t) == Counts(s) && Counts(s).Keys == s.table.Keys by {
      SameCounts(s, t);
    }
    if k in s.table {
      AdditionCounts(t, c);
    } else if |s.table| < s.capacity {
      InsertionCounts(t, c);
    } else {
      SameCounts(t, Apply(t, Refused(c)));
    }
  }

  lemma SameCounts(s: State<Flow>, t: State<Flow>)
    requires t.table == s.table && t.heap == s.heap
    ensures Counts(t) == Counts(s) && Counts(s).Keys == s.table.Keys
  {
  }

  predicate IsTcp(k: Flow) {
    k.protocol == IPPROTO_TCP
  }

  /** Keys in the map, and those a CPU is about to insert. */
  ghost predicate KeysAreTcp(s: State<Flow>) {
    && (forall k | k in s.table :: IsTcp(k))
    && (forall c | 0 <= c < |s.cpus| && !s.cpus[c].Idle? :: IsTcp(s.cpus[c].key))
  }

  lemma {:induction false} KeysStayTcp(s: State<Flow>, steps: seq<Step<Flow>>)
    requires Valid(s, steps) && s.parse == FlowOf && KeysAreTcp(s)
    ensures KeysAreTcp(Run(s, steps))
    decreases |steps|
  {
    if steps == [] {
    } else {
      KeysStayTcp(Apply(s, steps[0]), steps[1..]);
    }
  }

  /** What a run of any number of CPUs leaves in the map: TCP keys only, between 1 and the packets
      handled, short of them by exactly the losses of the run if no reader took part. */
  lemma CountsAfterTraffic(capacity: nat, cpus: nat, steps: seq<Step<Flow>>, k: Flow)
    requires Valid(Init(FlowOf, capacity, cpus), steps)
    ensures var s := Init(FlowOf, capacity, cpus);
      var t := Run(s, steps);
      && |t.table| <= capacity
      && (k in t.table ==> IsTcp(k) && 1 <= InMap(t, k) <= t.handled[k])
      && (Traffic(steps) ==> t.handled[k] == InMap(t, k) + Losses(s, steps, k)
                             && (t.handled[k] == InMap(t, k) <==> KeepsAll(s, steps, k)))
  {
    hide FlowOf, InMap, Losses, KeepsAll, Valid, Run;
    KeysStayTcp(Init(FlowOf, capacity, cpus), steps);
    CountBounds(FlowOf, capacity, cpus, steps, k);
    if Traffic(steps) {
      CountsUnderTraffic(FlowOf, capacity, cpus, steps, k);
    }
  }

  /** In every state any number of CPUs can reach, the listing that starts from the all-zero key
      writes every flow exactly once: only TCP keys are in the map, so that key is absent and the
      walk begins at the first entry. */
  lemma ListingAfterTraffic(capacity: nat, cpus: nat, steps: seq<Step<Flow>>, order: seq<Flow>)
    requires Valid(Init(FlowOf, capacity, cpus), steps)
    requires Walks(order, Counts(Run(Init(FlowOf, capacity, cpus), steps)))
    ensures var t := Run(Init(FlowOf, capacity, cpus), steps);
      && (forall k | k in DrainLoops.ListedKeys(order, ZERO_FLOW) :: k in Counts(t))
      && var rows := Listing(DrainLoops.ListedKeys(order, ZERO_FLOW), Counts(t));
      && rows == Listing(order, Counts(t))
      && Distinct(rows) && |rows| == |t.table|
      && (forall k, n :: (k, n) in rows <==> k in t.table && n == InMap(t, k))
      && (forall k, n | (k, n) in rows :: IsTcp(k) && 1 <= n <= t.handled[k])
  {
    hide FlowOf, InMap, Losses, KeepsAll, Valid, Run, Walks, Listing, Distinct, DrainLoops.ListedKeys;
    var t := Run(Init(FlowOf, capacity, cpus), steps);
    forall k | k in t.table
      ensures IsTcp(k) && 1 <= InMap(t, k) <= t.handled[k]
    {
      CountsAfterTraffic(capacity, cpus, steps, k);
    }
    assert !IsTcp(ZERO_FLOW);
    DrainLoops.ListedPresent(order, Counts(t), ZERO_FLOW);
    DrainLoops.ListingFromZero(order, Counts(t), ZERO_FLOW);
    ListingIsExact(order, Counts(t));
    assert Counts(t).Keys == t.table.Keys;
  }
}
