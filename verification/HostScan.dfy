/** The HTTP Host extractor: a method check, a search for the raw bytes `Host:`, a bounded run of
    spaces and a bounded copy of the rest of the line; then the frame is forwarded as usual. */
module HostScan {
  import opened Wrappers
  import opened Bytes
  import opened Xdp
  import opened Forwarder
  import opened Printing

  const MAX_HTTP_SCAN := 256
  const MAX_HOST_LEN := 63
  const MAX_SPACES := 8

  const SP: Byte := 0x20
  const CR: Byte := 0x0d
  const LF: Byte := 0x0a
  const HOST: seq<Byte> := [0x48, 0x6f, 0x73, 0x74, 0x3a]
  const GET: seq<Byte> := [0x47, 0x45, 0x54, SP]
  const POST: seq<Byte> := [0x50, 0x4f, 0x53, 0x54, SP]
  const HEAD: seq<Byte> := [0x48, 0x45, 0x41, 0x44, SP]

  predicate IsHttp(s: seq<Byte>) {
    GET <= s || POST <= s || HEAD <= s
  }

  predicate HostAt(s: seq<Byte>, i: nat) {
    i + 5 <= |s| && s[i] == HOST[0] && s[i + 1] == HOST[1] && s[i + 2] == HOST[2]
    && s[i + 3] == HOST[3] && s[i + 4] == HOST[4]
  }

  /** `at` is the first place of `Host:` among the scanned ones. */
  predicate FirstHost(s: seq<Byte>, at: nat) {
    at < MAX_HTTP_SCAN - 5 && HostAt(s, at) && forall j | 0 <= j < at :: !HostAt(s, j)
  }

  predicate NoHost(s: seq<Byte>) {
    forall j | 0 <= j < MAX_HTTP_SCAN - 5 :: !HostAt(s, j)
  }

  /** From `from` to `to` there are spaces, as many as there are up to eight. */
  predicate SpacesSkipped(s: seq<Byte>, from: nat, to: nat) {
    && from <= to <= from + MAX_SPACES && to <= |s|
    && (forall j | from <= j < to :: s[j] == SP)
    && (to == from + MAX_SPACES || to == |s| || s[to] != SP)
  }

  predicate EndsLine(b: Byte) {
    b == CR || b == LF
  }

  /** `name` is what stands at `start` up to the end of the line, at most 63 bytes of it. */
  predicate RestOfLine(s: seq<Byte>, start: nat, name: seq<Byte>) {
    && |name| <= MAX_HOST_LEN && start + |name| <= |s|
    && s[start..start + |name|] == name
    && (forall j | 0 <= j < |name| :: !EndsLine(name[j]))
    && (|name| == MAX_HOST_LEN || start + |name| == |s| || EndsLine(s[start + |name|]))
  }

  /** The host that stands after the first `Host:`. */
  ghost predicate HostIs(s: seq<Byte>, name: seq<Byte>) {
    exists at: nat, start: nat :: FirstHost(s, at) && SpacesSkipped(s, at + 5, start) && RestOfLine(s, start, name)
  }

  /** What is reported for a payload: nothing unless it is a request with a `Host:` in reach. */
  ghost predicate Reported(s: seq<Byte>, host: Option<seq<Byte>>) {
    match host
    case None => !IsHttp(s) || NoHost(s)
    case Some(name) => IsHttp(s) && HostIs(s, name)
  }

  method CheckMethod(packet: array<Byte>, payload: nat) returns (isHttp: bool)
    requires payload <= packet.Length
    ensures isHttp == IsHttp(packet[payload..])
  {
    ghost var s := packet[payload..];
    isHttp := false;
    if payload + 4 <= packet.Length && packet[payload] == 0x47 && packet[payload + 1] == 0x45
       && packet[payload + 2] == 0x54 && packet[payload + 3] == SP {
      isHttp := true;
    }
    assert isHttp == (GET <= s);
    if payload + 5 <= packet.Length && packet[payload] == 0x50 && packet[payload + 1] == 0x4f
       && packet[payload + 2] == 0x53 && packet[payload + 3] == 0x54 && packet[payload + 4] == SP {
      isHttp := true;
    }
    assert isHttp == (GET <= s || POST <= s);
    if payload + 5 <= packet.Length && packet[payload] == 0x48 && packet[payload + 1] == 0x45
       && packet[payload + 2] == 0x41 && packet[payload + 3] == 0x44 && packet[payload + 4] == SP {
      isHttp := true;
    }
  }

  method FindHost(packet: array<Byte>, payload: nat) returns (hostPosition: int)
    requires payload <= packet.Length
    ensures hostPosition == -1 || 0 <= hostPosition
    ensures hostPosition == -1 ==> NoHost(packet[payload..])
    ensures hostPosition >= 0 ==> FirstHost(packet[payload..], hostPosition)
  {
    ghost var s := packet[payload..];
    hostPosition := -1;
    for i := 0 to MAX_HTTP_SCAN - 5
      invariant hostPosition == -1
      invariant forall j | 0 <= j < i :: !HostAt(s, j)
    {
      if payload + i + 5 > packet.Length {
        break;
      }
      if packet[payload + i] == 0x48 && packet[payload + i + 1] == 0x6f && packet[payload + i + 2] == 0x73
         && packet[payload + i + 3] == 0x74 && packet[payload + i + 4] == 0x3a {
        hostPosition := i;
        break;
      }
    }
  }

  method SkipSpaces(packet: array<Byte>, payload: nat, from: nat) returns (hostStart: nat)
    requires payload + from <= packet.Length
    ensures SpacesSkipped(packet[payload..], from, hostStart)
  {
    hostStart := from;
    for i := 0 to MAX_SPACES
      invariant hostStart == from + i && payload + hostStart <= packet.Length
      invariant forall j | from <= j < hostStart :: packet[payload..][j] == SP
    {
      if payload + hostStart + 1 > packet.Length {
        break;
      }
      if packet[payload + hostStart] == SP {
        hostStart := hostStart + 1;
      } else {
        break;
      }
    }
  }

  /** The rest of the line, as a terminated string in a buffer of 64 bytes. */
  method CopyHost(packet: array<Byte>, payload: nat, hostStart: nat) returns (host: array<Byte>, hostLen: nat)
    requires payload + hostStart <= packet.Length
    ensures fresh(host) && host.Length == MAX_HOST_LEN + 1 && hostLen <= MAX_HOST_LEN
    ensures RestOfLine(packet[payload..], hostStart, host[..hostLen])
    ensures forall j | hostLen <= j < host.Length :: host[j] == 0
  {
    host := new Byte[MAX_HOST_LEN + 1](i => 0);
    hostLen := 0;
    for i := 0 to MAX_HOST_LEN
      invariant hostLen == i && payload + hostStart + i <= packet.Length
      invariant forall j | 0 <= j < i :: host[j] == packet[payload + hostStart + j] && !EndsLine(host[j])
      invariant forall j | i <= j < host.Length :: host[j] == 0
    {
      if payload + hostStart + i + 1 > packet.Length {
        break;
      }
      var c := packet[payload + hostStart + i];
      if c == CR || c == LF {
        break;
      }
      host[i] := c;
      hostLen := hostLen + 1;
    }
    host[hostLen] := 0;
    ghost var line := packet[payload..][hostStart..hostStart + hostLen];
    assert forall j | 0 <= j < hostLen :: line[j] == host[j];
    assert line == host[..hostLen];
  }

  /** The inspection of one payload; `host` is the line the program prints. */
  method Inspect(packet: array<Byte>, payload: nat) returns (host: Option<seq<Byte>>)
    requires payload <= packet.Length
    ensures Reported(packet[payload..], host)
  {
    var isHttp := CheckMethod(packet, payload);
    if !isHttp {
      return None;
    }
    var position := FindHost(packet, payload);
    if position < 0 {
      return None;
    }
    var start := SkipSpaces(packet, payload, position + 5);
    var buffer, length := CopyHost(packet, payload, start);
    return Some(buffer[..length]);
  }

  // ---- what is reported

  /** At most one answer fits a payload. */
  lemma ReportedOnce(s: seq<Byte>, g: Option<seq<Byte>>, h: Option<seq<Byte>>)
    requires Reported(s, g) && Reported(s, h)
    ensures g == h
  {
    if g.Some? && h.Some? {
      var at: nat, start: nat :| FirstHost(s, at) && SpacesSkipped(s, at + 5, start) && RestOfLine(s, start, g.value);
      var at': nat, start': nat :|
        FirstHost(s, at') && SpacesSkipped(s, at' + 5, start') && RestOfLine(s, start', h.value);
      assert at == at';
      SkippedOnce(s, at + 5, start, start');
      LineOnce(s, start, g.value, h.value);
    }
  }

  lemma SkippedOnce(s: seq<Byte>, from: nat, to: nat, to': nat)
    requires SpacesSkipped(s, from, to) && SpacesSkipped(s, from, to')
    ensures to == to'
  {
  }

  lemma LineOnce(s: seq<Byte>, start: nat, g: seq<Byte>, h: seq<Byte>)
    requires RestOfLine(s, start, g) && RestOfLine(s, start, h)
    ensures g == h
  {
    LineBytes(s, start, g);
    LineBytes(s, start, h);
  }

  lemma LineBytes(s: seq<Byte>, start: nat, name: seq<Byte>)
    requires RestOfLine(s, start, name)
    ensures forall j | 0 <= j < |name| :: s[start + j] == name[j]
  {
    assert forall j | 0 <= j < |name| :: s[start..start + |name|][j] == name[j];
  }

  function Repeat(b: Byte, k: nat): (r: seq<Byte>)
    ensures |r| == k && forall i | 0 <= i < k :: r[i] == b
  {
    if k == 0 then [] else [b] + Repeat(b, k - 1)
  }

  /** The text of a request whose first `Host:` follows `pre`; `rest` starts with the end of the line. */
  function Printed(pre: seq<Byte>, k: nat, name: seq<Byte>, rest: seq<Byte>): seq<Byte> {
    pre + HOST + Repeat(SP, k) + name + rest
  }

  /** `Host:` cannot overlap itself: its five letters differ. */
  lemma HostDoesNotOverlap(pre: seq<Byte>, rest: seq<Byte>, i: nat)
    requires i < |pre| && HostAt(pre + HOST + rest, i)
    ensures HostAt(pre, i)
  {
    var s := pre + HOST + rest;
    assert s[|pre|] == HOST[0];
    if i + 5 > |pre| {
      assert false;
    }
  }

  /** The bytes of an ASCII text. */
  function Text(t: string): (s: seq<Byte>)
    requires forall i | 0 <= i < |t| :: t[i] < 128 as char
    ensures |s| == |t| && forall i | 0 <= i < |t| :: s[i] == t[i] as int
  {
    seq(|t|, i requires 0 <= i < |t| => t[i] as int)
  }

  /** The scan looks for the raw text, case-sensitively. */
  lemma HostIsText(s: seq<Byte>, i: nat)
    ensures HostAt(s, i) <==> i + 5 <= |s| && s[i..i + 5] == Text("Host:")
  {
    if i + 5 <= |s| {
      var t := s[i..i + 5];
      assert t[0] == s[i] && t[1] == s[i + 1] && t[2] == s[i + 2] && t[3] == s[i + 3] && t[4] == s[i + 4];
    }
  }

  /** A request is what starts with one of three methods and a space. */
  lemma MethodsAreText(s: seq<Byte>)
    ensures IsHttp(s) <==> Text("GET ") <= s || Text("POST ") <= s || Text("HEAD ") <= s
  {
    assert GET == Text("GET ") && POST == Text("POST ") && HEAD == Text("HEAD ");
  }

  predicate HostInside(pre: seq<Byte>) {
    exists i | 0 <= i < |pre| :: HostAt(pre, i)
  }

  lemma PrintedFirst(pre: seq<Byte>, tail: seq<Byte>)
    requires !HostInside(pre)
    ensures FirstHost(pre + HOST + tail, |pre|) <==> |pre| <= 250
    ensures |pre| > 250 ==> NoHost(pre + HOST + tail)
  {
    var s := pre + HOST + tail;
    assert HostAt(s, |pre|);
    forall j | 0 <= j < |pre|
      ensures !HostAt(s, j)
    {
      if HostAt(s, j) {
        HostDoesNotOverlap(pre, tail, j);
      }
    }
  }

  lemma PrintedParts(pre: seq<Byte>, k: nat, name: seq<Byte>, rest: seq<Byte>)
    requires rest != []
    ensures var s, from := Printed(pre, k, name, rest), |pre| + 5;
      && s == pre + HOST + (Repeat(SP, k) + name + rest)
      && from + k + |name| < |s|
      && (forall j | from <= j < from + k :: s[j] == SP)
      && s[from + k..from + k + |name|] == name && s[from + k + |name|] == rest[0]
  {
    var s, spaces := Printed(pre, k, name, rest), Repeat(SP, k);
    hide Repeat;
    assert s == pre + HOST + (spaces + name + rest);
    PlacedParts(pre + HOST, spaces, name, rest);
    assert s == pre + HOST + spaces + name + rest;
  }

  lemma PlacedParts(a: seq<Byte>, b: seq<Byte>, c: seq<Byte>, d: seq<Byte>)
    requires d != []
    ensures var s := a + b + c + d;
      && s[|a| + |b|..|a| + |b| + |c|] == c && s[|a| + |b| + |c|] == d[0]
      && forall j | |a| <= j < |a| + |b| :: s[j] == b[j - |a|]
  {
  }

  lemma NothingReported(s: seq<Byte>, host: Option<seq<Byte>>)
    requires NoHost(s) && Reported(s, host)
    ensures host == None
  {
    hide HostAt;
  }

  /** Extraction inverts printing, exactly when `Host:` is within the first 251 places, the name
      fits, and no space of the name is mistaken for padding. */
  lemma ExtractionInvertsPrinting(pre: seq<Byte>, k: nat, name: seq<Byte>, rest: seq<Byte>, host: Option<seq<Byte>>)
    requires !HostInside(pre) && k <= 8 && forall j | 0 <= j < |name| :: name[j] !in {0x0d, 0x0a}
    requires rest != [] && rest[0] in {0x0d, 0x0a}
    requires IsHttp(Printed(pre, k, name, rest)) && Reported(Printed(pre, k, name, rest), host)
    ensures host == Some(name) <==>
            |pre| <= 250 && |name| <= 63 && (k == 8 || name == [] || name[0] != SP)
  {
    hide Printed, Repeat, FirstHost, NoHost, HostInside, IsHttp, Reported;
    var s := Printed(pre, k, name, rest);
    PrintedParts(pre, k, name, rest);
    PrintedFirst(pre, Repeat(SP, k) + name + rest);
    if |pre| > 250 {
      NothingReported(s, host);
    } else {
      var from := |pre| + 5;
      if k == MAX_SPACES || name == [] || name[0] != SP {
        PrintedFits(s, from, k, name, host);
      } else {
        LeadingSpaceLost(s, from, k, name, host);
      }
    }
  }

  lemma PrintedFits(s: seq<Byte>, from: nat, k: nat, name: seq<Byte>, host: Option<seq<Byte>>)
    requires k <= MAX_SPACES && from >= 5 && FirstHost(s, from - 5) && IsHttp(s) && Reported(s, host)
    requires from + k + |name| < |s| && s[from + k..from + k + |name|] == name && EndsLine(s[from + k + |name|])
    requires forall j | from <= j < from + k :: s[j] == SP
    requires forall j | 0 <= j < |name| :: !EndsLine(name[j])
    requires k == MAX_SPACES || name == [] || name[0] != SP
    ensures host == Some(name) <==> |name| <= MAX_HOST_LEN
  {
    hide FirstHost, SpacesSkipped, RestOfLine;
    PrintedLine(s, from, k, name);
    if |name| <= MAX_HOST_LEN {
      assert HostIs(s, name);
      ReportedOnce(s, host, Some(name));
    } else if host.Some? {
      ShortName(s, host.value);
    }
  }

  lemma PrintedLine(s: seq<Byte>, from: nat, k: nat, name: seq<Byte>)
    requires k <= MAX_SPACES && from + k + |name| < |s|
    requires s[from + k..from + k + |name|] == name && EndsLine(s[from + k + |name|])
    requires forall j | from <= j < from + k :: s[j] == SP
    requires forall j | 0 <= j < |name| :: !EndsLine(name[j])
    requires k == MAX_SPACES || name == [] || name[0] != SP
    ensures SpacesSkipped(s, from, from + k)
    ensures |name| <= MAX_HOST_LEN ==> RestOfLine(s, from + k, name)
  {
    assert name != [] ==> s[from + k] == s[from + k..from + k + |name|][0];
  }

  lemma ShortName(s: seq<Byte>, name: seq<Byte>)
    requires HostIs(s, name)
    ensures |name| <= MAX_HOST_LEN
  {
    hide FirstHost, SpacesSkipped;
  }

  lemma LeadingSpaceLost(s: seq<Byte>, from: nat, k: nat, name: seq<Byte>, host: Option<seq<Byte>>)
    requires k < MAX_SPACES && from >= 5 && FirstHost(s, from - 5) && IsHttp(s) && Reported(s, host)
    requires from + k + |name| < |s| && s[from + k..from + k + |name|] == name && EndsLine(s[from + k + |name|])
    requires forall j | from <= j < from + k :: s[j] == SP
    requires name != [] && name[0] == SP && forall j | 0 <= j < |name| :: !EndsLine(name[j])
    ensures host != Some(name)
  {
    if host.Some? {
      var at: nat, start: nat :|
        FirstHost(s, at) && SpacesSkipped(s, at + 5, start) && RestOfLine(s, start, host.value);
      assert at == from - 5;
      assert s[from + k] == s[from + k..from + k + |name|][0];
      LateStart(s, from + k, start, name);
    }
  }

  /** Starting later than the name does runs into the end of its line. */
  lemma LateStart(s: seq<Byte>, begin: nat, start: nat, name: seq<Byte>)
    requires begin < start <= |s| && 0 < |name| < |s| - begin
    requires s[begin..begin + |name|] == name && EndsLine(s[begin + |name|])
    requires forall j | begin <= j < start :: s[j] == SP
    ensures !RestOfLine(s, start, name)
  {
    var stop := begin + |name|;
    assert start <= stop;
    if start + |name| <= |s| && s[start..start + |name|] == name {
      assert name[stop - start] == s[stop];
    }
  }

  // ---- inspection and forwarding

  /** Bytes in the TCP header that starts after the IPv4 header. */
  function TcpHeaderLengthAt(f: Frame, tcp: nat): nat
    requires tcp + 20 <= |f|
  {
    var offset: int := f[tcp + 12];
    offset / 0x10 * 4
  }

  /** Verdict and frame of the inspecting program, check by check. */
  function Inspected(p: Ports, ingress: nat, f: Frame): (Action, Frame) {
    if |f| < ETH_HLEN then (Drop, f)
    else if EtherType(f) == ETH_P_ARP then (Pass, f)
    else if EtherType(f) != ETH_P_IP then (Drop, f)
    else if |f| < 34 then (Drop, f)
    else if IpProtocol(f) != IPPROTO_TCP then Relay(p, ingress, f)
    else
      var tcp := 14 + IpHeaderLength(f);
      if IpHeaderLength(f) < 20 || tcp > |f| then (Drop, f)
      else if tcp + 20 > |f| then (Drop, f)
      else if TcpHeaderLengthAt(f, tcp) < 20 then (Drop, f)
      else if tcp + TcpHeaderLengthAt(f, tcp) > |f| then (Drop, f)
      else Relay(p, ingress, f)
  }

  /** A TCP segment over IPv4 with whole headers: 20 to 60 bytes each, inside the frame. */
  predicate WholeHeaders(f: Frame) {
    && |f| >= 34 && EtherType(f) == ETH_P_IP && IpProtocol(f) == IPPROTO_TCP
    && 20 <= IpHeaderLength(f) <= |f| - 34
    && 20 <= TcpHeaderLengthAt(f, 14 + IpHeaderLength(f)) <= |f| - 14 - IpHeaderLength(f)
  }

  /** IPv4 frames too short for an IPv4 header, and TCP segments without whole headers. */
  predicate BadHeaders(f: Frame) {
    && |f| >= ETH_HLEN && EtherType(f) == ETH_P_IP
    && (|f| < 34 || (IpProtocol(f) == IPPROTO_TCP && !WholeHeaders(f)))
  }

  /** The frames whose payload is searched: client TCP segments to port 80. */
  predicate Searched(p: Ports, ingress: nat, f: Frame) {
    WholeHeaders(f) && ingress == p.a && Be16(f, 14 + IpHeaderLength(f) + 2) == 80
  }

  function PayloadOffset(f: Frame): (offset: nat)
    requires WholeHeaders(f)
    ensures 54 <= offset <= |f|
  {
    14 + IpHeaderLength(f) + TcpHeaderLengthAt(f, 14 + IpHeaderLength(f))
  }

  /** Reading inverts printing: of the printed TCP segments, exactly those to port 80 from the client's
      port are searched, and what is searched is their payload. */
  lemma SearchedPrinted(p: Ports, ingress: nat, macs: seq<Byte>, ip: Ipv4, tcp: Tcp, payload: seq<Byte>)
    requires |macs| == 12 && ip.Ok() && tcp.Ok()
    ensures var f := PrintIp(macs, ip, 6, PrintTcp(tcp, payload));
      && WholeHeaders(f) && f[PayloadOffset(f)..] == payload
      && (Searched(p, ingress, f) <==> ingress == p.a && tcp.dport == 80)
  {
    hide PrintIp, PrintTcp, Be16, Be32, IpHeaderLength;
    var segment := PrintTcp(tcp, payload);
    var f := PrintIp(macs, ip, 6, segment);
    PrintedIp(macs, ip, 6, segment);
    EtherTypeBytes(f);
    var at := 14 + IpHeaderLength(f);
    assert f[at + 12] == segment[12];
    OffsetNibble(5 + |tcp.options| / 4, tcp.low);
    assert TcpHeaderLengthAt(f, at) == 20 + |tcp.options|;
    WordBehind(f, at, 2);
    assert f[at + 20 + |tcp.options|..] == segment[20 + |tcp.options|..];
  }

  lemma OffsetNibble(words: nat, low: nat)
    requires low < 16
    ensures (0x10 * words + low) / 0x10 == words
  {
  }

  lemma EmptyPayload(s: seq<Byte>)
    requires s == []
    ensures Reported(s, None)
  {
  }

  method XdpInspectingProg(ctx: XdpMd, p: Ports) returns (action: Action, host: Option<seq<Byte>>)
    modifies ctx.packet
    ensures (action, ctx.packet[..]) == Inspected(p, ctx.ingress, old(ctx.packet[..]))
    ensures var f := old(ctx.packet[..]);
      if Searched(p, ctx.ingress, f) then Reported(f[PayloadOffset(f)..], host) else host == None
  {
    hide IpHeaderLength, TcpHeaderLengthAt, Be16, Reported, WithMacs;
    host := None;
    var f := ctx.packet[..];
    if |f| < ETH_HLEN {
      return Drop, host;
    }
    if EtherType(f) == ETH_P_ARP {
      return Pass, host;
    }
    if EtherType(f) != ETH_P_IP {
      return Drop, host;
    }
    if |f| < 34 {
      return Drop, host;
    }
    if IpProtocol(f) == IPPROTO_TCP {
      var tcp := 14 + IpHeaderLength(f);
      if IpHeaderLength(f) < 20 {
        return Drop, host;
      }
      if tcp > |f| {
        return Drop, host;
      }
      if tcp + 20 > |f| {
        return Drop, host;
      }
      var tcpLength := TcpHeaderLengthAt(f, tcp);
      if tcpLength < 20 {
        return Drop, host;
      }
      if tcp + tcpLength > |f| {
        return Drop, host;
      }
      if ctx.ingress == p.a && Be16(f, tcp + 2) == 80 {
        var payload := tcp + tcpLength;
        if payload < |f| {
          host := Inspect(ctx.packet, payload);
        } else {
          EmptyPayload(f[payload..]);
        }
      }
    }
    action := RelayInPlace(ctx, p);
  }

  /** Inspection never changes forwarding: on every interface, verdict and frame are those of the
      plain forwarder if and only if the headers are not refused; on a refusal the inspecting program
      drops what the forwarder lets through. Everything from the EtherType on stays in any case. */
  lemma InspectionKeepsForwarding(p: Ports, ingress: nat, f: Frame)
    ensures Inspected(p, ingress, f) == Forward(p, ingress, f) <==> !BadHeaders(f)
    ensures BadHeaders(f) ==> Inspected(p, ingress, f) == (Drop, f) && Forward(p, ingress, f).0 != Drop
    ensures var out := Inspected(p, ingress, f).1;
      |out| == |f| && (|f| >= 12 ==> out[12..] == f[12..])
  {
  }

  /** The payload plays no part in forwarding: two segments with the same headers, whatever they carry
      and however much of it, get the verdict and addresses the plain forwarder gives both, and each
      keeps its own bytes behind them. */
  lemma PayloadPlaysNoPart(p: Ports, ingress: nat, f: Frame, g: Frame)
    requires WholeHeaders(f) && |g| >= PayloadOffset(f) && g[..PayloadOffset(f)] == f[..PayloadOffset(f)]
    ensures WholeHeaders(g) && PayloadOffset(g) == PayloadOffset(f)
    ensures Searched(p, ingress, g) == Searched(p, ingress, f)
    ensures var ((action, out), (action', out')) := (Inspected(p, ingress, f), Inspected(p, ingress, g));
      && action' == action == Forward(p, ingress, f).0 == Forward(p, ingress, g).0
      && |out| == |f| && |out'| == |g| && out'[..12] == out[..12] == Forward(p, ingress, f).1[..12]
      && out[12..] == f[12..] && out'[12..] == g[12..]
  {
    var headers, tcp := f[..PayloadOffset(f)], 14 + IpHeaderLength(f);
    assert forall i | 0 <= i < |headers| :: f[i] == headers[i] == g[i];
    assert tcp + 12 < |headers|;
    var out, out' := Inspected(p, ingress, f).1, Inspected(p, ingress, g).1;
    assert out[..12] == out[..6] + out[6..12] && out'[..12] == out'[..6] + out'[6..12];
  }
}
