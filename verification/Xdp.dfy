/** What an XDP program sees: a frame in a buffer, the arrival interface, and the verdicts. */
module Xdp {
  import opened Bytes

  datatype Action = Aborted | Drop | Pass | Tx | Redirect(ifindex: nat)

  type Frame = seq<Byte>

  const ETH_HLEN := 14
  const ETH_P_IP: Word := 0x0800
  const ETH_P_ARP: Word := 0x0806
  const IPPROTO_ICMP: Byte := 1
  const IPPROTO_TCP: Byte := 6
  const IPPROTO_UDP: Byte := 17

  /** A hardware address. */
  type Mac = m: seq<Byte> | |m| == 6 witness [0, 0, 0, 0, 0, 0]

  const ZERO_MAC: Mac := [0, 0, 0, 0, 0, 0]

  function EtherType(f: Frame): Word
    requires |f| >= ETH_HLEN
  {
    Be16(f, 12)
  }

  predicate IsArp(f: Frame) {
    |f| >= ETH_HLEN && EtherType(f) == ETH_P_ARP
  }

  predicate IsIpv4(f: Frame) {
    |f| >= ETH_HLEN && EtherType(f) == ETH_P_IP
  }

  /** Bytes in the IPv4 header that starts at offset 14: the IHL nibble counts 32-bit words. */
  function IpHeaderLength(f: Frame): nat
    requires |f| > ETH_HLEN
  {
    var versionIhl: int := f[14];
    versionIhl % 0x10 * 4
  }

  /** The protocol byte of the IPv4 header. */
  function IpProtocol(f: Frame): Byte
    requires |f| >= 34
  {
    f[23]
  }

  /** `f` with both hardware addresses replaced; everything from the EtherType on stays. */
  function WithMacs(f: Frame, dst: Mac, src: Mac): (r: Frame)
    requires |f| >= ETH_HLEN
    ensures |r| == |f| && r[..6] == dst && r[6..12] == src && r[12..] == f[12..]
  {
    dst + src + f[12..]
  }

  /** The packet buffer and receive metadata of one run of a program. */
  class XdpMd {
    var packet: array<Byte>
    const ingress: nat

    constructor (packet: array<Byte>, ingress: nat)
      ensures this.packet == packet && this.ingress == ingress
    {
      this.packet, this.ingress := packet, ingress;
    }
  }

  /** `__builtin_memcpy` into the packet. */
  method Store(packet: array<Byte>, at: nat, field: seq<Byte>)
    requires at + |field| <= packet.Length
    modifies packet
    ensures packet[..] == Splice(old(packet[..]), at, field)
  {
    for i := 0 to |field|
      invariant forall j | 0 <= j < i :: packet[at + j] == field[j]
      invariant forall j | 0 <= j < packet.Length && !(at <= j < at + i) :: packet[j] == old(packet[j])
    {
      packet[at + i] := field[i];
    }
    assert packet[..] == Splice(old(packet[..]), at, field);
  }

  /** Overwrite destination and source hardware addresses in place. */
  method StoreMacs(packet: array<Byte>, dst: Mac, src: Mac)
    requires packet.Length >= ETH_HLEN
    modifies packet
    ensures packet[..] == WithMacs(old(packet[..]), dst, src)
  {
    Store(packet, 0, dst);
    Store(packet, 6, src);
    assert packet[..] == WithMacs(old(packet[..]), dst, src);
  }
}
