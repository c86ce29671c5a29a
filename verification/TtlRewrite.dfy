/** TTL rewriting with the incremental checksum update of RFC 1624, section 3, equation 3. */
module TtlRewrite {
  import opened Bytes
  import opened OnesComplement
  import opened Xdp
  import opened Forwarder

  /** `HC' = ~(~HC + ~m + m')` in one's-complement arithmetic. */
  ghost function UpdatedCheck(check: Word, oldWord: Word, newWord: Word): Word {
    0xffff - Fold((0xffff - check) + (0xffff - oldWord) + newWord)
  }

  /** An IPv4 header (with whatever follows it) after `rewrite_ttl`. */
  ghost function Rewritten(h: seq<Byte>, ttl: Byte): (r: seq<Byte>)
    requires |h| >= 20
    ensures |r| == |h| && r[8] == ttl && r[9] == h[9]
    ensures r[..8] == h[..8] && r[12..] == h[12..]
    ensures Be16(r, 10) == UpdatedCheck(Be16(h, 10), Be16(h, 8), Pair(ttl, h[9]))
  {
    h[..8] + [ttl, h[9]] + PutBe16(UpdatedCheck(Be16(h, 10), Be16(h, 8), Pair(ttl, h[9]))) + h[12..]
  }

  /** The reference: install the TTL and compute the whole checksum again. */
  ghost function Recomputed(h: seq<Byte>, ttl: Byte): seq<Byte>
    requires |h| >= 20
  {
    var blank := h[..8] + [ttl, h[9], 0, 0] + h[12..];
    Splice(blank, 10, PutBe16(Checksum(blank)))
  }

  lemma FieldsMakeRewrite(h: seq<Byte>, ttl: Byte, check: Word, r: seq<Byte>)
    requires |h| >= 20 && check == UpdatedCheck(Be16(h, 10), Be16(h, 8), Pair(ttl, h[9]))
    requires |r| == |h| && r[8] == ttl && r[9] == h[9] && r[10..12] == PutBe16(check)
    requires r[..8] == h[..8] && r[12..] == h[12..]
    ensures r == Rewritten(h, ttl)
  {
    assert r == r[..8] + [r[8], r[9]] + r[10..12] + r[12..];
  }

  /** The checksum stored first and the TTL after it make the rewritten header. */
  lemma StoredInPlace(f: Frame, ip: nat, ttl: Byte, check: Word, g: Frame, r: Frame)
    requires ip + 20 <= |f| && check == UpdatedCheck(Be16(f[ip..], 10), Be16(f[ip..], 8), Pair(ttl, f[ip + 9]))
    requires g == Splice(f, ip + 10, PutBe16(check)) && r == g[ip + 8 := ttl]
    ensures r == f[..ip] + Rewritten(f[ip..], ttl)
  {
    hide Rewritten, UpdatedCheck, Be16, PutBe16, Splice, Pair;
    var h, after := f[ip..], r[ip..];
    assert forall j | 0 <= j < |f| && j != ip + 8 && !(ip + 10 <= j < ip + 12) :: r[j] == f[j];
    assert r[..ip] == f[..ip] && after[..8] == h[..8] && after[12..] == h[12..];
    assert after[10..12] == g[ip + 10..ip + 12];
    FieldsMakeRewrite(h, ttl, check, after);
    assert r == r[..ip] + after;
  }

  method RewriteTtl(packet: array<Byte>, ip: nat, ttl: Byte)
    requires ip + 20 <= packet.Length
    modifies packet
    ensures packet[..] == old(packet[..ip]) + Rewritten(old(packet[ip..]), ttl)
  {
    hide Rewritten, Fold, Carried, Congruent, Be16, PutBe16, Splice;
    ghost var f := packet[..];
    var before := packet[ip..];
    assert before == f[ip..] && packet[..ip] == f[..ip];
    var check, oldWord := Be16(before, 10), Be16(before, 8);
    var newWord := Pair(ttl, packet[ip + 9]);
    var sum: nat := 0xffff - check;
    sum := sum + (0xffff - oldWord);
    sum := sum + newWord;
    var folded := CsumFold(sum);
    Store(packet, ip + 10, PutBe16(folded));
    ghost var g := packet[..];
    packet[ip + 8] := ttl;
    StoredInPlace(f, ip, ttl, folded, g, packet[..]);
  }

  // ---- what the incremental update means

  /** The result stands for `HC + m - m'` and is never the all-ones representation of zero. */
  lemma UpdatedCheckMeans(check: Word, oldWord: Word, newWord: Word)
    requires newWord > 0
    ensures Congruent(UpdatedCheck(check, oldWord, newWord), check + oldWord - newWord)
    ensures UpdatedCheck(check, oldWord, newWord) < 0xffff
  {
    hide Congruent, Fold;
    var sum := (0xffff - check) + (0xffff - oldWord) + newWord;
    Complemented(Fold(sum), sum, check + oldWord - newWord);
  }

  lemma Complemented(w: Word, sum: int, value: int)
    requires Congruent(w, sum) && sum == 2 * 0xffff - value
    ensures Congruent(0xffff - w, value)
  {
    hide Congruent;
    Shifted(0xffff - w, value, -1 - Times(w, sum));
  }

  lemma SumOfNothing()
    ensures SumBE([]) == 0
  {
  }

  /** The sum over a header is its TTL word, its checksum word and the rest. */
  lemma HeaderSum(h: seq<Byte>)
    requires |h| >= 20
    ensures SumBE(h) == SumBE(h[..8]) + Be16(h, 8) + Be16(h, 10) + SumBE(h[12..])
  {
    hide SumBE;
    SumAround(h, 10);
    SumAround(h[..10], 8);
    assert h[..10][..8] == h[..8] && h[..10][10..] == [];
    SumOfNothing();
  }

  function WordsKept(h: seq<Byte>): nat
    requires |h| >= 20
  {
    SumBE(h[..8]) + SumBE(h[12..])
  }

  lemma RewrittenSum(h: seq<Byte>, ttl: Byte)
    requires |h| >= 20 && h[9] != 0
    ensures SumBE(Rewritten(h, ttl)) > 0 && SumBE(h) > 0
    ensures Congruent(SumBE(Rewritten(h, ttl)), SumBE(h))
  {
    hide Fold, Congruent, SumBE, UpdatedCheck;
    var r := Rewritten(h, ttl);
    HeaderSum(h);
    HeaderSum(r);
    UpdatedCheckMeans(Be16(h, 10), Be16(h, 8), Be16(r, 8));
    Shifted(SumBE(r), SumBE(h), Times(Be16(r, 10), Be16(h, 10) + Be16(h, 8) - Be16(r, 8)));
  }

  /** A header verifies after a rewrite exactly when it verified before. */
  lemma RewritePreservesValidity(h: seq<Byte>, ttl: Byte)
    requires |h| >= 20 && h[9] != 0
    ensures Verifies(Rewritten(h, ttl)) <==> Verifies(h)
  {
    hide Congruent, Fold, SumBE, Rewritten;
    RewrittenSum(h, ttl);
    VerifiesMeans(SumBE(Rewritten(h, ttl)));
    VerifiesMeans(SumBE(h));
    FoldUnique(SumBE(Rewritten(h, ttl)), SumBE(h));
  }

  lemma RecomputedParts(h: seq<Byte>, ttl: Byte)
    requires |h| >= 20 && h[9] != 0
    ensures var r := Recomputed(h, ttl);
      && |r| == |h| && r[8] == ttl && r[9] == h[9] && r[..8] == h[..8] && r[12..] == h[12..]
      && Be16(r, 10) == 0xffff - Fold(WordsKept(h) + Pair(ttl, h[9]))
  {
    var blank := h[..8] + [ttl, h[9], 0, 0] + h[12..];
    assert blank[..8] == h[..8] && blank[12..] == h[12..];
    HeaderSum(blank);
    var r := Recomputed(h, ttl);
    assert r[10..12] == PutBe16(Checksum(blank));
    assert r[10] == r[10..12][0] && r[11] == r[10..12][1];
    assert r[..8] == blank[..8] && r[12..] == blank[12..];
  }

  lemma SameHeader(r: seq<Byte>, s: seq<Byte>)
    requires |r| == |s| >= 20 && r[..8] == s[..8] && r[12..] == s[12..] && r[8] == s[8] && r[9] == s[9]
    ensures r == s <==> Be16(r, 10) == Be16(s, 10)
  {
    assert r == r[..8] + [r[8], r[9], r[10], r[11]] + r[12..];
    assert s == s[..8] + [s[8], s[9], s[10], s[11]] + s[12..];
  }

  /** Bit for bit the recomputed header, exactly when the old checksum verified: the two
      representations of zero never differ because the TTL/protocol word is not zero. */
  lemma RewriteMatchesRecompute(h: seq<Byte>, ttl: Byte)
    requires |h| >= 20 && h[9] != 0
    ensures Rewritten(h, ttl) == Recomputed(h, ttl) <==> Verifies(h)
  {
    hide Congruent, Fold, SumBE;
    var w, kept := Pair(ttl, h[9]), WordsKept(h);
    RecomputedParts(h, ttl);
    SameHeader(Rewritten(h, ttl), Recomputed(h, ttl));
    HeaderSum(h);
    var sum := (0xffff - Be16(h, 10)) + (0xffff - Be16(h, 8)) + w;
    FoldUnique(sum, kept + w);
    VerifiesMeans(SumBE(h));
    if Congruent(sum, kept + w) {
      Shifted(SumBE(h), 0, 2 - Times(sum, kept + w));
    }
    if Congruent(SumBE(h), 0) {
      Shifted(sum, kept + w, 2 - Times(SumBE(h), 0));
    }
  }

  lemma UpdateTwice(check: Word, m: Word, m1: Word, m2: Word)
    requires m1 > 0 && m2 > 0
    ensures UpdatedCheck(UpdatedCheck(check, m, m1), m1, m2) == UpdatedCheck(check, m, m2)
  {
    hide Congruent, Fold;
    var c1 := UpdatedCheck(check, m, m1);
    UpdatedCheckMeans(check, m, m1);
    var a, b := (0xffff - c1) + (0xffff - m1) + m2, (0xffff - check) + (0xffff - m) + m2;
    Moved(c1, check + m - m1, a, b);
    FoldUnique(a, b);
  }

  lemma Moved(c: int, value: int, a: int, b: int)
    requires Congruent(c, value) && a - b == value - c
    ensures Congruent(a, b)
  {
    hide Congruent;
    Shifted(a, b, -Times(c, value));
  }

  lemma UpdateUnchanged(check: Word, m: Word)
    requires m > 0
    ensures UpdatedCheck(check, m, m) == check <==> check != 0xffff
  {
    hide Congruent, Fold;
    UpdatedCheckMeans(check, m, m);
    var c := UpdatedCheck(check, m, m);
    var k := Times(c, check + m - m);
  }

  /** A chain of rewrites leaves the header of one rewrite to the last TTL. */
  lemma RewriteTwice(h: seq<Byte>, first: Byte, second: Byte)
    requires |h| >= 20 && h[9] != 0
    ensures Rewritten(Rewritten(h, first), second) == Rewritten(h, second)
  {
    var r := Rewritten(h, first);
    SameHeader(Rewritten(r, second), Rewritten(h, second));
    var m, m1, m2 := Be16(h, 8), Be16(r, 8), Pair(second, h[9]);
    UpdateTwice(Be16(h, 10), m, m1, m2);
  }

  ghost function RewrittenAll(h: seq<Byte>, ttls: seq<Byte>): (r: seq<Byte>)
    requires |h| >= 20
    ensures |r| == |h| && r[9] == h[9]
    decreases |ttls|
  {
    if ttls == [] then h else RewrittenAll(Rewritten(h, ttls[0]), ttls[1..])
  }

  lemma {:induction false} ChainIsLastRewrite(h: seq<Byte>, ttls: seq<Byte>)
    requires |h| >= 20 && h[9] != 0 && ttls != []
    ensures RewrittenAll(h, ttls) == Rewritten(h, ttls[|ttls| - 1])
    decreases |ttls|
  {
    if |ttls| == 1 {
    } else {
      ChainIsLastRewrite(Rewritten(h, ttls[0]), ttls[1..]);
      RewriteTwice(h, ttls[0], ttls[|ttls| - 1]);
    }
  }

  /** Going back to the first TTL restores the header, unless its checksum held the
      representation of zero that RFC 1624 never produces. */
  lemma RestoringTtl(h: seq<Byte>, ttl: Byte)
    requires |h| >= 20 && h[9] != 0
    ensures Rewritten(Rewritten(h, ttl), h[8]) == h <==> Be16(h, 10) != 0xffff
  {
    RewriteTwice(h, ttl, h[8]);
    SameHeader(Rewritten(h, h[8]), h);
    UpdateUnchanged(Be16(h, 10), Be16(h, 8));
  }

  // ---- the whole program

  predicate HeaderTooShort(f: Frame)
    requires |f| >= ETH_HLEN
  {
    |f| < 34 || IpHeaderLength(f) < 20 || |f| < 14 + IpHeaderLength(f)
  }

  ghost function TtlProgram(p: Ports, ingress: nat, f: Frame, ttl: Byte): (Action, Frame) {
    if |f| < ETH_HLEN then (Drop, f)
    else if EtherType(f) == ETH_P_ARP then (Pass, f)
    else if EtherType(f) != ETH_P_IP || HeaderTooShort(f) then (Drop, f)
    else if IpProtocol(f) == IPPROTO_TCP then Relay(p, ingress, f[..14] + Rewritten(f[14..], ttl))
    else Relay(p, ingress, f)
  }

  method XdpRedirectCommon(ctx: XdpMd, p: Ports, ttl: Byte) returns (action: Action)
    modifies ctx.packet
    ensures (action, ctx.packet[..]) == TtlProgram(p, ctx.ingress, old(ctx.packet[..]), ttl)
  {
    var f := ctx.packet[..];
    if |f| < ETH_HLEN {
      return Drop;
    }
    if EtherType(f) == ETH_P_ARP {
      return Pass;
    }
    if EtherType(f) != ETH_P_IP {
      return Drop;
    }
    if |f| < 34 {
      return Drop;
    }
    if IpHeaderLength(f) < 20 {
      return Drop;
    }
    if 14 + IpHeaderLength(f) > |f| {
      return Drop;
    }
    if IpProtocol(f) == IPPROTO_TCP {
      RewriteTtl(ctx.packet, 14, ttl);
    }
    action := RelayInPlace(ctx, p);
  }

  /** An IPv4 frame whose header is cut short, claims less than 20 bytes, or claims more than there are. */
  predicate IsRefused(f: Frame) {
    IsIpv4(f) && HeaderTooShort(f)
  }

  /** Relaying looks at no byte, and touches none behind the hardware addresses. */
  lemma SamePrefix(p: Ports, ingress: nat, f: Frame, g: Frame)
    requires |f| >= 14 && |g| >= 14 && g[..14] == f[..14]
    ensures Relay(p, ingress, g).0 == Relay(p, ingress, f).0
    ensures |Relay(p, ingress, f).1| == |f| && |Relay(p, ingress, g).1| == |g|
    ensures Relay(p, ingress, g).1[..14] == Relay(p, ingress, f).1[..14]
  {
    hide WithMacs;
    if ingress == p.a {
      FirstBytes(f, g, LAPTOP_B, SERVER_B);
    } else if ingress == p.b {
      FirstBytes(f, g, LAPTOP_A, SERVER_A);
    }
  }

  lemma FirstBytes(f: Frame, g: Frame, dst: Mac, src: Mac)
    requires |f| >= 14 && |g| >= 14 && g[..14] == f[..14]
    ensures WithMacs(g, dst, src)[..14] == WithMacs(f, dst, src)[..14]
  {
    var macs := dst + src;
    assert f[..14][12..] == g[..14][12..] && f[12..14] == f[..14][12..] && g[12..14] == g[..14][12..];
    assert WithMacs(g, dst, src)[..14] == macs + g[12..14] && WithMacs(f, dst, src)[..14] == macs + f[12..14];
  }

  /** Rewriting never changes forwarding: a refused frame is dropped as it came, where the plain
      forwarder lets it through; every other frame that is not TCP gets exactly what the forwarder
      gives it; and a TCP frame gets the forwarder's verdict and hardware addresses. */
  lemma RewritingKeepsForwarding(p: Ports, ingress: nat, f: Frame, ttl: Byte)
    ensures var (action, out) := TtlProgram(p, ingress, f, ttl);
      var (plain, forwarded) := Forward(p, ingress, f);
      && (IsRefused(f) ==> (action, out) == (Drop, f) && plain != Drop)
      && (!IsRefused(f) ==> action == plain && |out| == |f|)
      && (!IsRefused(f) && !IsRewritten(f) ==> out == forwarded)
      && (IsRewritten(f) ==> out[..14] == forwarded[..14])
  {
    hide Rewritten, Relay, IpHeaderLength;
    Policy(p, ingress, f);
    if IsRewritten(f) {
      var sent := f[..14] + Rewritten(f[14..], ttl);
      assert sent[..14] == f[..14];
      SamePrefix(p, ingress, f, sent);
    }
  }

  /** The IPv4 header of a frame, options included. */
  function IpHeader(f: Frame): seq<Byte>
    requires |f| >= 34 && 20 <= IpHeaderLength(f) <= |f| - 14
  {
    f[14..14 + IpHeaderLength(f)]
  }

  /** A TCP frame whose IPv4 header is rewritten. */
  predicate IsRewritten(f: Frame) {
    |f| >= 34 && EtherType(f) == ETH_P_IP && !HeaderTooShort(f) && IpProtocol(f) == IPPROTO_TCP
  }

  /** On every forwarded TCP frame: the TTL is installed, the header (of 5 to 15 words) verifies
      exactly when it did on arrival, it then carries the recomputed checksum, and a later hop
      running the same program with another TTL erases every trace of this one. */
  lemma ForwardedHeader(p: Ports, ingress: nat, f: Frame, ttl: Byte, laterIngress: nat, later: Byte,
                        out: Frame, again: Frame, direct: Frame)
    requires IsRewritten(f)
    requires out == TtlProgram(p, ingress, f, ttl).1
    requires again == TtlProgram(p, laterIngress, out, later).1
    requires direct == TtlProgram(p, ingress, f, later).1
    ensures IsRewritten(out) && IsRewritten(again) && IsRewritten(direct)
    ensures |out| == |f| && IpHeaderLength(out) == IpHeaderLength(f)
    ensures out[22] == ttl && out[14 + IpHeaderLength(f)..] == f[14 + IpHeaderLength(f)..]
    ensures Verifies(IpHeader(out)) <==> Verifies(IpHeader(f))
    ensures IpHeader(out) == Recomputed(IpHeader(f), ttl) <==> Verifies(IpHeader(f))
    ensures IpHeader(again) == IpHeader(direct)
  {
    hide Verifies, Recomputed, Rewritten, TtlProgram;
    HeaderOfOutput(p, ingress, f, ttl, out);
    HeaderOfOutput(p, ingress, f, later, direct);
    HeaderOfOutput(p, laterIngress, out, later, again);
    RewritePreservesValidity(IpHeader(f), ttl);
    RewriteMatchesRecompute(IpHeader(f), ttl);
    RewriteTwice(IpHeader(f), ttl, later);
  }

  lemma SentHeader(p: Ports, ingress: nat, f: Frame, ttl: Byte, out: Frame)
    requires IsRewritten(f) && out == TtlProgram(p, ingress, f, ttl).1
    ensures |out| == |f| && out[12] == f[12] && out[13] == f[13] && out[14..] == Rewritten(f[14..], ttl)
  {
    hide Rewritten;
    var whole := Rewritten(f[14..], ttl);
    assert out[12..] == f[12..14] + whole;
    assert out[12] == out[12..][0] && out[13] == out[12..][1] && out[14..] == out[12..][2..];
  }

  lemma HeaderOfOutput(p: Ports, ingress: nat, f: Frame, ttl: Byte, out: Frame)
    requires IsRewritten(f) && out == TtlProgram(p, ingress, f, ttl).1
    ensures IsRewritten(out) && |out| == |f| && IpHeaderLength(out) == IpHeaderLength(f) && out[22] == ttl
    ensures IpHeader(out) == Rewritten(IpHeader(f), ttl)
    ensures out[14 + IpHeaderLength(f)..] == f[14 + IpHeaderLength(f)..]
  {
    hide Rewritten, Fold, UpdatedCheck, Pair;
    SentHeader(p, ingress, f, ttl, out);
    var n := IpHeaderLength(f);
    var whole := Rewritten(f[14..], ttl);
    assert whole[0] == whole[..8][0] == f[14..][..8][0];
    assert out[14] == whole[0] && out[22] == whole[8] && out[23] == whole[9];
    RewrittenPrefix(f[14..], n, ttl);
    CutAt(out, 14, n);
    CutAt(f, 14, n);
  }

  lemma CutAt(f: Frame, from: nat, n: nat)
    requires from + n <= |f|
    ensures f[from..from + n] == f[from..][..n] && f[from + n..] == f[from..][n..]
  {
  }

  /** Rewriting a header does not depend on what follows it. */
  lemma RewrittenPrefix(h: seq<Byte>, n: nat, ttl: Byte)
    requires 20 <= n <= |h|
    ensures Rewritten(h, ttl)[..n] == Rewritten(h[..n], ttl)
    ensures Rewritten(h, ttl)[n..] == h[n..]
  {
    hide UpdatedCheck;
    var r, s := Rewritten(h, ttl), Rewritten(h[..n], ttl);
    assert h[..n][..8] == h[..8] && h[..n][12..] == h[12..n];
    assert r[12..][..n - 12] == h[12..n];
    assert r[n..] == r[12..][n - 12..] && h[n..] == h[12..][n - 12..];
  }
}
