/** The plain two-port forwarder: rewrite hardware addresses and send out of the other port. */
module Forwarder {
  import opened Bytes
  import opened Xdp

  /** Interface numbers of port A (ens7f0) and port B (ens7f1); each program has its own pair. */
  datatype Ports = Ports(a: nat, b: nat)

  const LAPTOP_A: Mac := [0x50, 0xa1, 0x32, 0x76, 0xde, 0xbb]
  const LAPTOP_B: Mac := [0x50, 0xa1, 0x32, 0x76, 0xe9, 0xf9]
  const SERVER_A: Mac := [0xb4, 0x96, 0x91, 0x12, 0x9d, 0x44]
  const SERVER_B: Mac := [0xb4, 0x96, 0x91, 0x12, 0x9d, 0x46]

  /** Verdict and frame once a frame is known to be forwardable. */
  function Relay(p: Ports, ingress: nat, f: Frame): (Action, Frame)
    requires |f| >= ETH_HLEN
  {
    if ingress == p.a then (Redirect(p.b), WithMacs(f, LAPTOP_B, SERVER_B))
    else if ingress == p.b then (Redirect(p.a), WithMacs(f, LAPTOP_A, SERVER_A))
    else (Pass, f)
  }

  /** What the forwarder does to any frame. */
  function Forward(p: Ports, ingress: nat, f: Frame): (Action, Frame) {
    if |f| < ETH_HLEN then (Drop, f)
    else if EtherType(f) == ETH_P_ARP then (Pass, f)
    else if EtherType(f) != ETH_P_IP then (Drop, f)
    else Relay(p, ingress, f)
  }

  method RelayInPlace(ctx: XdpMd, p: Ports) returns (action: Action)
    requires ctx.packet.Length >= ETH_HLEN
    modifies ctx.packet
    ensures (action, ctx.packet[..]) == Relay(p, ctx.ingress, old(ctx.packet[..]))
  {
    if ctx.ingress == p.a {
      StoreMacs(ctx.packet, LAPTOP_B, SERVER_B);
      return Redirect(p.b);
    }
    if ctx.ingress == p.b {
      StoreMacs(ctx.packet, LAPTOP_A, SERVER_A);
      return Redirect(p.a);
    }
    return Pass;
  }

  method XdpRedirectProg(ctx: XdpMd, p: Ports) returns (action: Action)
    modifies ctx.packet
    ensures (action, ctx.packet[..]) == Forward(p, ctx.ingress, old(ctx.packet[..]))
  {
    if ctx.packet.Length < ETH_HLEN {
      return Drop;
    }
    var proto := EtherType(ctx.packet[..]);
    if proto == ETH_P_ARP {
      return Pass;
    }
    if proto != ETH_P_IP {
      return Drop;
    }
    action := RelayInPlace(ctx, p);
  }

  /** What the forwarder does, in terms of the frame: IPv4 frames of one port leave by the other one,
      addressed to the laptop behind it and from the server's own address on it; ARP and IPv4 from
      anywhere else go up the stack; everything else is dropped. Nothing goes back where it came from,
      and nothing but the addresses of a forwarded frame changes. */
  lemma Policy(p: Ports, ingress: nat, f: Frame)
    ensures var (action, out) := Forward(p, ingress, f);
      && (action == Drop <==> !IsArp(f) && !IsIpv4(f))
      && (action == Pass <==> IsArp(f) || (IsIpv4(f) && ingress !in {p.a, p.b}))
      && (IsIpv4(f) && ingress == p.a ==>
            action == Redirect(p.b) && out[..6] == LAPTOP_B && out[6..12] == SERVER_B)
      && (IsIpv4(f) && ingress == p.b != p.a ==>
            action == Redirect(p.a) && out[..6] == LAPTOP_A && out[6..12] == SERVER_A)
      && (p.a != p.b ==> action != Redirect(ingress))
      && |out| == |f| && (|f| >= ETH_HLEN ==> out[12..] == f[12..])
      && (!action.Redirect? ==> out == f)
  {
  }
}
