/** The three-port router: it classifies a frame by arrival interface, protocol and destination port,
    and sends it through a transmit slot whose interface and addresses come from maps. */
module L7Router {
  import opened Bytes
  import opened Xdp

  datatype Role = Client | F | Z

  const TX_TO_F: nat := 0
  const TX_TO_Z: nat := 1
  const TX_TO_CLIENT: nat := 2

  datatype MacPair = MacPair(dst: Mac, src: Mac)

  const ZERO_PAIR := MacPair(ZERO_MAC, ZERO_MAC)

  /** The three maps: two arrays, whose entries start as zeros, and a device map, whose slots start
      out missing. */
  datatype Config = Config(ifindex: seq<nat>, macs: seq<MacPair>, txPort: map<nat, nat>) {
    predicate Ok() {
      |ifindex| == 3 && |macs| == 3 && txPort.Keys <= {0, 1, 2}
    }

    function RoleIfindex(role: Role): nat
      requires Ok()
    {
      match role
      case Client => ifindex[0]
      case F => ifindex[1]
      case Z => ifindex[2]
    }
  }

  const EMPTY := Config([0, 0, 0], [ZERO_PAIR, ZERO_PAIR, ZERO_PAIR], map[])

  /** What the program decides from the frame alone, once it knows where the frame came from. */
  datatype Decision = Refuse | Plain(slot: nat) | Routed(slot: nat)

  /** A frame of a client: ICMP and DNS and HTTPS to F, HTTP to Z, nothing else. */
  function ClientDecision(f: Frame): (d: Decision)
    requires |f| >= 34
    ensures d.Routed? ==> d.slot < 3
    ensures !d.Plain?
  {
    var transport := 14 + IpHeaderLength(f);
    if IpHeaderLength(f) < 20 || transport > |f| then Refuse
    else if IpProtocol(f) == IPPROTO_ICMP then Routed(TX_TO_F)
    else if IpProtocol(f) == IPPROTO_UDP then
      if transport + 8 > |f| then Refuse
      else if Be16(f, transport + 2) == 53 then Routed(TX_TO_F)
      else Refuse
    else if IpProtocol(f) == IPPROTO_TCP then
      if transport + 20 > |f| then Refuse
      else
        var port := Be16(f, transport + 2);
        if port == 80 then Routed(TX_TO_Z)
        else if port == 443 || port == 53 then Routed(TX_TO_F)
        else Refuse
    else Refuse
  }

  function Decide(c: Config, ingress: nat, f: Frame): (d: Decision)
    requires c.Ok()
    ensures !d.Refuse? ==> d.slot < 3 && |f| >= ETH_HLEN
  {
    if |f| < ETH_HLEN then Refuse
    else if EtherType(f) == ETH_P_ARP then
      if ingress == c.RoleIfindex(Client) then Plain(TX_TO_F)
      else if ingress == c.RoleIfindex(F) then Plain(TX_TO_CLIENT)
      else Refuse
    else if EtherType(f) != ETH_P_IP || |f| < 34 then Refuse
    else if ingress == c.RoleIfindex(F) then Routed(TX_TO_CLIENT)
    else if ingress == c.RoleIfindex(Z) then Refuse
    else if ingress != c.RoleIfindex(Client) then Refuse
    else ClientDecision(f)
  }

  /** `bpf_redirect_map`: a missing slot aborts. */
  function Transmit(c: Config, slot: nat): Action {
    if slot in c.txPort then Redirect(c.txPort[slot]) else Aborted
  }

  /** What the router does to a frame. */
  function Route(c: Config, ingress: nat, f: Frame): (Action, Frame)
    requires c.Ok()
  {
    match Decide(c, ingress, f)
    case Refuse => (Drop, f)
    case Plain(slot) => (Transmit(c, slot), f)
    case Routed(slot) => (Transmit(c, slot), WithMacs(f, c.macs[slot].dst, c.macs[slot].src))
  }

  /** How often a packet reads the maps: three interface numbers, then the two addresses of its slot,
      then the interface of the slot. */
  const READS: nat := 6

  /** The configuration a packet goes by when its reads meet different ones. */
  function Seen(found: seq<Config>): (c: Config)
    requires |found| == READS && forall i | 0 <= i < READS :: found[i].Ok()
    ensures c.Ok()
  {
    assert found[0].Ok() && found[1].Ok() && found[2].Ok() && found[3].Ok() && found[4].Ok() && found[5].Ok();
    Config([found[0].ifindex[0], found[1].ifindex[1], found[2].ifindex[2]],
           [MacPair(found[3].macs[0].dst, found[4].macs[0].src),
            MacPair(found[3].macs[1].dst, found[4].macs[1].src),
            MacPair(found[3].macs[2].dst, found[4].macs[2].src)],
           found[5].txPort)
  }

  /** A packet during which nothing is updated goes by the maps as they are. */
  lemma SeenAtOnce(c: Config)
    requires c.Ok()
    ensures Seen(seq(READS, i => c)) == c
  {
  }

  /** The program with its maps. */
  class Router {
    var ifindexMap: array<nat>
    var macMap: array<MacPair>
    var txPort: map<nat, nat>

    ghost predicate Valid()
      reads this, ifindexMap, macMap
    {
      ifindexMap.Length == 3 && macMap.Length == 3 && txPort.Keys <= {0, 1, 2}
    }

    ghost function Contents(): (c: Config)
      reads this, ifindexMap, macMap
      requires Valid()
      ensures c.Ok()
    {
      Config(ifindexMap[..], macMap[..], txPort)
    }

    constructor ()
      ensures Valid() && fresh(ifindexMap) && fresh(macMap) && Contents() == EMPTY
    {
      ifindexMap, macMap, txPort := new nat[3](i => 0), new MacPair[3](i => ZERO_PAIR), map[];
    }

    method GetRoleIfindex(role: nat) returns (rc: int, ifindex: nat)
      requires Valid()
      ensures rc == (if role < 3 then 0 else -1)
      ensures rc == 0 ==> ifindex == Contents().ifindex[role]
    {
      if role >= ifindexMap.Length {
        return -1, 0;
      }
      return 0, ifindexMap[role];
    }

    method SetEthMacs(packet: array<Byte>, slot: nat) returns (rc: int)
      requires Valid() && packet.Length >= ETH_HLEN
      modifies packet
      ensures rc == (if slot < 3 then 0 else -1)
      ensures rc == 0 ==> packet[..] == WithMacs(old(packet[..]), Contents().macs[slot].dst, Contents().macs[slot].src)
      ensures rc != 0 ==> packet[..] == old(packet[..])
    {
      if slot >= macMap.Length {
        return -1;
      }
      var macs := macMap[slot];
      StoreMacs(packet, macs.dst, macs.src);
      return 0;
    }

    method RedirectSlot(packet: array<Byte>, slot: nat) returns (action: Action)
      requires Valid() && packet.Length >= ETH_HLEN
      modifies packet
      ensures slot < 3 ==> action == Transmit(Contents(), slot)
      ensures slot < 3 ==> packet[..] == WithMacs(old(packet[..]), Contents().macs[slot].dst, Contents().macs[slot].src)
      ensures slot >= 3 ==> action == Drop && packet[..] == old(packet[..])
    {
      var rc := SetEthMacs(packet, slot);
      if rc < 0 {
        return Drop;
      }
      return if slot in txPort then Redirect(txPort[slot]) else Aborted;
    }

    method XdpL7Router(ctx: XdpMd) returns (action: Action)
      requires Valid()
      modifies ctx.packet
      ensures Valid() && Contents() == old(Contents())
      ensures (action, ctx.packet[..]) == Route(Contents(), ctx.ingress, old(ctx.packet[..]))
    {
      hide IpHeaderLength, Be16, WithMacs;
      ghost var c := Contents();
      var f, ingress := ctx.packet[..], ctx.ingress;
      if |f| < ETH_HLEN {
        return Drop;
      }
      var rc0, clientIf := GetRoleIfindex(0);
      var rc1, fIf := GetRoleIfindex(1);
      var rc2, zIf := GetRoleIfindex(2);
      if rc0 < 0 || rc1 < 0 || rc2 < 0 {
        return Drop;
      }
      if EtherType(f) == ETH_P_ARP {
        if ingress == clientIf {
          return if TX_TO_F in txPort then Redirect(txPort[TX_TO_F]) else Aborted;
        }
        if ingress == fIf {
          return if TX_TO_CLIENT in txPort then Redirect(txPort[TX_TO_CLIENT]) else Aborted;
        }
        return Drop;
      }
      if EtherType(f) != ETH_P_IP {
        return Drop;
      }
      if |f| < 34 {
        return Drop;
      }
      if ingress == fIf {
        action := RedirectSlot(ctx.packet, TX_TO_CLIENT);
        return;
      }
      if ingress == zIf {
        return Drop;
      }
      if ingress != clientIf {
        return Drop;
      }
      var transport := 14 + IpHeaderLength(f);
      if IpHeaderLength(f) < 20 {
        return Drop;
      }
      if transport > |f| {
        return Drop;
      }
      if IpProtocol(f) == IPPROTO_ICMP {
        action := RedirectSlot(ctx.packet, TX_TO_F);
        return;
      }
      if IpProtocol(f) == IPPROTO_UDP {
        if transport + 8 > |f| {
          return Drop;
        }
        if Be16(f, transport + 2) == 53 {
          action := RedirectSlot(ctx.packet, TX_TO_F);
          return;
        }
        return Drop;
      }
      if IpProtocol(f) == IPPROTO_TCP {
        if transport + 20 > |f| {
          return Drop;
        }
        var dstPort := Be16(f, transport + 2);
        if dstPort == 80 {
          action := RedirectSlot(ctx.packet, TX_TO_Z);
          return;
        }
        if dstPort == 443 {
          action := RedirectSlot(ctx.packet, TX_TO_F);
          return;
        }
        if dstPort == 53 {
          action := RedirectSlot(ctx.packet, TX_TO_F);
          return;
        }
        return Drop;
      }
      return Drop;
    }
  }
}
