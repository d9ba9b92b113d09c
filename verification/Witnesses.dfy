/**
 Frames the router receives and sends on damaged: a GTP-U tunnel carrying a good
 packet, a decap rule with NAT, and the packet that leaves.
 */
module Witnesses {
  import opened Bytes
  import opened Checksum
  import opened Nat
  import opened Gtpu
  import opened Dataplane
  import Policy
  import Rules
  import Tunnel
  import EndToEnd

  const NO_LIMITS: Policy.Config := Policy.Config(0, 0, 0)
  const ROUTER_MAC: Mac := [2, 0, 0, 0, 0, 1]
  const CORE_MAC: Mac := [2, 0, 0, 0, 0, 2]
  const UPLINK_TEID: u32 := 0xdead
  const UE_IP: u32 := 0x0a2d_0002
  const NAT_IP: u32 := 0x0a2d_0003

  /** What the base station puts around a subscriber's packet. */
  const ENVELOPE: Rules.Config :=
    Rules.Config(Rules.ACTION_ENCAP, 1, ROUTER_MAC, CORE_MAC, UPLINK_TEID, 0x0ac9_0001, 0x0ac9_0002, 0, NO_LIMITS)

  /** The router's rule for the tunnel: decapsulate, and exchange the source for the NAT address. */
  const UPLINK: Rules.Config :=
    Rules.Config(Rules.ACTION_DECAP, 2, CORE_MAC, ROUTER_MAC, 0, 0, 0, NAT_IP, NO_LIMITS)

  const TABLE: Table := map[Teid(UPLINK_TEID) := Rule(UPLINK, Policy.FRESH, 0, 0)]

  /** The received frame: `inner` (a frame, of which the packet counts) in the envelope. */
  function Received(inner: seq<byte>): Packet
    requires |inner| >= 34
  {
    Packet(Tunnel.Wrapped(Plain, ENVELOPE, inner), 0, 0)
  }

  /** What the router makes of it. */
  function Outcome(inner: seq<byte>): Result
    requires |inner| >= 34
  {
    Step({2}, TABLE, Received(inner))
  }

  /** The packet behind the Ethernet header the router writes. */
  function Stripped(inner: seq<byte>): (f: seq<byte>)
    requires |inner| >= 34
    ensures |f| == |inner| && f[ETH_LEN..] == inner[ETH_LEN..]
  {
    EthHeader(UPLINK) + inner[ETH_LEN..]
  }

  /** The rule is found, admits the packet, and its action is the rewrite of the stripped packet. */
  lemma OutcomeIsRewrite(inner: seq<byte>)
    requires IsIpv4(inner) && Be32(inner, SADDR) == UE_IP
    ensures var w := Rewrite(Source, Stripped(inner), UE_IP, NAT_IP);
            var r := Outcome(inner);
            if w.Some? then r.verdict == Redirect(2) && r.slot == Some(RedirectSlot) && r.frame == w.value
            else r.verdict == Drop && r.slot == Some(DropSlot)
  {
    hide Parse, Decap, Rewrite, Tunnel.Wrapped, EthHeader;
    Tunnel.EncapIff(Plain, ENVELOPE, inner, PLAIN_OVERHEAD);
    Tunnel.EncapDecapRoundTrip(Plain, ENVELOPE, UPLINK, inner, PLAIN_OVERHEAD);
    var f := Tunnel.Wrapped(Plain, ENVELOPE, inner);
    assert Parse(f) == Tunnel(UPLINK_TEID, Be32(inner, DADDR), UE_IP, PLAIN_OVERHEAD);
    assert Chosen(TABLE, Received(inner)) == Some(Teid(UPLINK_TEID));
    assert Decide(TABLE, Teid(UPLINK_TEID), 0).verdict == Policy.Admit;
  }

  // ----- The packets -----

  /** An IPv4 packet with a valid 20-byte header from UE_IP, and what follows it. */
  function Inner(tot: u16, fragment: u16, protocol: byte, check: u16, data: seq<byte>): (f: seq<byte>)
    ensures |f| == 34 + |data|
  {
    seq(ETH_LEN, i => 0)
    + ([0x45, 0] + Enc16(tot) + [0, 0] + Enc16(fragment) + [64, protocol] + Enc16(check)
       + Enc32(UE_IP) + [8, 8, 8, 8])
    + data
  }

  lemma InnerFields(tot: u16, fragment: u16, protocol: byte, check: u16, data: seq<byte>)
    ensures var f := Inner(tot, fragment, protocol, check, data);
            && IsIpv4(f) && HeaderLen(f) == 20 && f[15] == 0
            && Be16(f, TOT_LEN) == tot && Be16(f, 18) == 0 && Be16(f, 20) == fragment
            && f[22] == 64 && f[PROTOCOL] == protocol && Be16(f, IP_CHECK) == check
            && Be32(f, SADDR) == UE_IP && Be32(f, DADDR) == 0x0808_0808
            && f[34..] == data
  {
    var f := Inner(tot, fragment, protocol, check, data);
    var s := f[26..30];
    assert s == Enc32(UE_IP);
    Tunnel.Slice32(f, 26, 30, 0);
  }

  /** The sum of words, one word at a time. */
  lemma NextWord(s: seq<byte>, i: nat)
    requires i + 2 <= |s|
    ensures WordSum(s[i..]) == Be16(s, i) + WordSum(s[i + 2..])
  {
    assert s[i..][2..] == s[i + 2..];
  }

  lemma WordsOf8(s: seq<byte>)
    requires |s| == 8
    ensures WordSum(s) == Be16(s, 0) + Be16(s, 2) + Be16(s, 4) + Be16(s, 6)
  {
    hide WordSum;
    assert s[0..] == s;
    NextWord(s, 0);
    NextWord(s, 2);
    NextWord(s, 4);
    NextWord(s, 6);
    WordSumZero(s[8..]);
  }

  lemma WordsOf20(s: seq<byte>)
    requires |s| == 20
    ensures WordSum(s) == Be16(s, 0) + Be16(s, 2) + Be16(s, 4) + Be16(s, 6) + Be16(s, 8)
                          + Be16(s, 10) + Be16(s, 12) + Be16(s, 14) + Be16(s, 16) + Be16(s, 18)
  {
    hide WordSum;
    assert s[0..] == s;
    NextWord(s, 0);
    NextWord(s, 2);
    NextWord(s, 4);
    NextWord(s, 6);
    NextWord(s, 8);
    NextWord(s, 10);
    WordsOf8(s[12..]);
  }

  /** Two words of a slice make the 32-bit field they came from. */
  lemma FieldHalves(f: seq<byte>, lo: nat, hi: nat, o: nat)
    requires lo <= hi <= |f| && lo + o + 4 <= hi
    ensures Be16(f[lo..hi], o) + Be16(f[lo..hi], o + 2) == Halves(Be32(f, lo + o))
  {
    var s := f[lo..hi];
    Tunnel.Slice32(f, lo, hi, o);
    SplitWords(Be16(s, o), Be16(s, o + 2));
  }

  lemma InnerHeaderSum(tot: u16, fragment: u16, protocol: byte, check: u16, data: seq<byte>)
    ensures var f := Inner(tot, fragment, protocol, check, data);
            && HeaderPresent(f)
            && HeaderSum(f) == 0x4500 + tot + fragment + 0x4000 + protocol + check + Halves(UE_IP) + Halves(0x0808_0808)
  {
    hide WordSum, Inner, Halves;
    InnerFields(tot, fragment, protocol, check, data);
    var f := Inner(tot, fragment, protocol, check, data);
    var h := f[14..34];
    WordsOf20(h);
    Tunnel.Slice16(f, 14, 34, 0);
    Tunnel.Slice16(f, 14, 34, 2);
    Tunnel.Slice16(f, 14, 34, 4);
    Tunnel.Slice16(f, 14, 34, 6);
    Tunnel.Slice16(f, 14, 34, 8);
    Tunnel.Slice16(f, 14, 34, 10);
    FieldHalves(f, 14, 34, 12);
    FieldHalves(f, 14, 34, 16);
    assert f[14] == 0x45;
  }

  /** The header checksum of these packets is right. */
  lemma InnerHeaderValid(tot: u16, fragment: u16, protocol: byte, check: u16, data: seq<byte>)
    requires 0x4500 + tot + fragment + 0x4000 + protocol + check + 0x0a2d + 2 + 0x0808 + 0x0808 == 0xffff
    ensures var f := Inner(tot, fragment, protocol, check, data); HeaderPresent(f) && HeaderValid(f)
  {
    hide WordSum, Fold, Inner, HeaderSum, HeaderPresent;
    InnerHeaderSum(tot, fragment, protocol, check, data);
    ValidIff(0xffff);
  }

  lemma InnerSegmentPresent(tot: u16, protocol: byte, check: u16, data: seq<byte>)
    requires protocol == TCP || protocol == UDP
    requires |data| == tot - 20 && |data| >= if protocol == TCP then 20 else 8
    requires protocol == UDP ==> Be16(data, 4) == |data|
    ensures var f := Inner(tot, 0, protocol, check, data);
            && SegmentPresent(f) && f[PROTOCOL] == protocol && HeaderLen(f) == 20 && Be16(f, TOT_LEN) == tot
            && L4Check(f) == Some(if protocol == TCP then 50 else 40)
            && Be16(f, L4Check(f).value) == Be16(data, if protocol == TCP then 16 else 6)
            && SegmentLen(f) == |data| && f[34..34 + SegmentLen(f)] == data
  {
    hide Inner;
    InnerFields(tot, 0, protocol, check, data);
    var f := Inner(tot, 0, protocol, check, data);
    assert f[34..34 + |data|] == f[34..];
    Tunnel.Slice16(f, 34, |f|, if protocol == TCP then 16 else 6);
    Tunnel.Slice16(f, 34, |f|, 4);
  }

  lemma AddressSum(f: seq<byte>)
    requires |f| >= 34
    ensures WordSum(f[SADDR..SADDR + 8]) == Halves(Be32(f, SADDR)) + Halves(Be32(f, DADDR))
  {
    hide WordSum, Halves;
    assert f[26..34] == f[26..30] + f[30..34];
    WordSumConcat(f[26..30], f[30..34]);
    Word32At(f, 26);
    Word32At(f, 30);
  }

  /** The pseudo-header and segment of these packets, summed. */
  lemma InnerSegmentSum(tot: u16, protocol: byte, check: u16, data: seq<byte>)
    requires protocol == TCP || protocol == UDP
    requires |data| == tot - 20 && |data| >= if protocol == TCP then 20 else 8
    requires protocol == UDP ==> Be16(data, 4) == |data|
    ensures var f := Inner(tot, 0, protocol, check, data);
            && SegmentPresent(f)
            && SegmentSum(f) == Halves(UE_IP) + Halves(0x0808_0808) + protocol + |data| + WordSum(data)
  {
    hide WordSum, Inner, Halves, SegmentPresent, L4Check;
    InnerFields(tot, 0, protocol, check, data);
    InnerSegmentPresent(tot, protocol, check, data);
    AddressSum(Inner(tot, 0, protocol, check, data));
  }

  // ----- A TCP checksum that is legitimately zero -----

  const ZERO_SUM_TCP: seq<byte> := [0x95, 0xa6, 0, 0, 0, 0, 0, 0, 0, 0, 0, 0, 0x50, 0, 0, 0, 0, 0, 0, 0]

  function ZeroSumPacket(): seq<byte> {
    Inner(40, 0, TCP, 0x6092, ZERO_SUM_TCP)
  }

  lemma ZeroSumPacketGood()
    ensures var f := ZeroSumPacket();
            && HeaderPresent(f) && HeaderValid(f) && IsIpv4(f) && Be32(f, SADDR) == UE_IP
            && SegmentPresent(f) && Accepted(f) && f[PROTOCOL] == TCP && Be16(f, L4Check(f).value) == 0
  {
    hide WordSum, Fold, Inner, SegmentPresent, SegmentSum, L4Check, HeaderPresent;
    InnerFields(40, 0, TCP, 0x6092, ZERO_SUM_TCP);
    InnerHeaderValid(40, 0, TCP, 0x6092, ZERO_SUM_TCP);
    InnerSegmentPresent(40, TCP, 0x6092, ZERO_SUM_TCP);
    InnerSegmentSum(40, TCP, 0x6092, ZERO_SUM_TCP);
    WordsOf20(ZERO_SUM_TCP);
    ValidIff(SegmentSum(ZeroSumPacket()));
  }

  /** The packet in the tunnel is valid throughout; the packet the router sends is refused by its receiver. */
  lemma ZeroChecksumBroken()
    ensures var f, r := ZeroSumPacket(), Outcome(ZeroSumPacket());
            && HeaderPresent(f) && HeaderValid(f) && SegmentPresent(f) && Accepted(f)
            && r.verdict == Redirect(2) && SegmentPresent(r.frame) && !Accepted(r.frame)
  {
    hide WordSum, Fold, Valid, ZeroSumPacket, SegmentPresent, SegmentSum, HeaderPresent, L4Check,
         Outcome, Stripped, Rewrite;
    var f := ZeroSumPacket();
    ZeroSumPacketGood();
    OutcomeIsRewrite(f);
    var s := Stripped(f);
    EndToEnd.SamePacket(f, s);
    SameSource(f, s);
    ZeroChecksumSegment(Source, s, NAT_IP);
  }

  lemma SameSource(f: seq<byte>, g: seq<byte>)
    requires |f| == |g| >= 34 && f[ETH_LEN..] == g[ETH_LEN..]
    ensures Be32(f, SADDR) == Be32(g, SADDR)
  {
    Tunnel.Slice32(f, 14, |f|, 12);
    Tunnel.Slice32(g, 14, |g|, 12);
  }

  // ----- A UDP checksum that the update turns into "none" -----

  const CORRUPT_UDP: seq<byte> := [0x03, 0xe8, 0, 53, 0, 8, 0, 1]

  function CorruptUdpPacket(): seq<byte> {
    Inner(28, 0, UDP, 0x6093, CORRUPT_UDP)
  }

  lemma CorruptUdpPacketBad()
    ensures var f := CorruptUdpPacket();
            && HeaderPresent(f) && HeaderValid(f) && IsIpv4(f) && Be32(f, SADDR) == UE_IP
            && SegmentPresent(f) && !Accepted(f) && f[PROTOCOL] == UDP && Be16(f, L4Check(f).value) == 1
  {
    hide WordSum, Fold, Inner, SegmentPresent, SegmentSum, L4Check, HeaderPresent;
    InnerFields(28, 0, UDP, 0x6093, CORRUPT_UDP);
    InnerHeaderValid(28, 0, UDP, 0x6093, CORRUPT_UDP);
    InnerSegmentPresent(28, UDP, 0x6093, CORRUPT_UDP);
    InnerSegmentSum(28, UDP, 0x6093, CORRUPT_UDP);
    WordsOf8(CORRUPT_UDP);
    ValidIff(SegmentSum(CorruptUdpPacket()));
  }

  /** A corrupt datagram that its receiver would have refused leaves the router as one it accepts. */
  lemma CorruptUdpAccepted()
    ensures var f, r := CorruptUdpPacket(), Outcome(CorruptUdpPacket());
            && HeaderPresent(f) && HeaderValid(f) && SegmentPresent(f) && !Accepted(f)
            && r.verdict == Redirect(2) && SegmentPresent(r.frame) && Accepted(r.frame)
  {
    hide WordSum, Fold, Valid, CorruptUdpPacket, SegmentPresent, SegmentSum, HeaderPresent, L4Check,
         Outcome, Stripped, Rewrite;
    var f := CorruptUdpPacket();
    CorruptUdpPacketBad();
    OutcomeIsRewrite(f);
    var s := Stripped(f);
    EndToEnd.SamePacket(f, s);
    SameSource(f, s);
    AcceptedIff(Source, s, NAT_IP);
  }

  // ----- Later fragments -----

  const FRAGMENT_DATA: seq<byte> := [0, 0, 0, 0, 0, 0, 0x12, 0x34]

  /** The last eight bytes of a fragmented datagram. */
  function Fragment(protocol: byte, check: u16): seq<byte> {
    Inner(28, 1, protocol, check, FRAGMENT_DATA)
  }

  lemma FragmentFields(protocol: byte, check: u16)
    requires protocol == TCP || protocol == UDP
    ensures var f, s := Fragment(protocol, check), Stripped(Fragment(protocol, check));
            && IsIpv4(s) && HeaderLen(s) == 20 && LaterFragment(s) && s[PROTOCOL] == protocol && |s| == 42
            && Be16(s, 40) == 0x1234 && Be32(f, SADDR) == Be32(s, SADDR) == UE_IP && IsIpv4(f)
            && s[34..] == FRAGMENT_DATA
  {
    hide Inner, Stripped;
    var f, s := Fragment(protocol, check), Stripped(Fragment(protocol, check));
    InnerFields(28, 1, protocol, check, FRAGMENT_DATA);
    SameSource(f, s);
    assert forall i :: ETH_LEN <= i < |f| ==> s[i] == s[ETH_LEN..][i - ETH_LEN] == f[i];
    assert s[34..] == f[34..];
    Tunnel.Slice16(s, 34, |s|, 6);
  }

  lemma FragmentRewritten(s: seq<byte>)
    requires IsIpv4(s) && HeaderLen(s) == 20 && s[PROTOCOL] == UDP && |s| == 42 && Be16(s, 40) == 0x1234
    ensures var g := Rewrite(Source, s, UE_IP, NAT_IP);
            g.Some? && |g.value| == 42 && Be16(g.value, 40) != 0x1234
  {
    hide Rewrite, Update;
    RewriteEffect(Source, s, UE_IP, NAT_IP);
    UpdateFixedIff(0x1234, UE_IP, NAT_IP);
  }

  /** A later UDP fragment with a valid header is sent on with its payload changed. */
  lemma FragmentCorrupted()
    ensures var f, r := Fragment(UDP, 0x6092), Outcome(Fragment(UDP, 0x6092));
            && HeaderPresent(f) && HeaderValid(f)
            && r.verdict == Redirect(2) && |r.frame| == |f| == 42 && r.frame[34..] != f[34..]
  {
    hide WordSum, Fold, Inner, Stripped, Outcome, Rewrite, HeaderPresent, HeaderSum;
    var f := Fragment(UDP, 0x6092);
    InnerFields(28, 1, UDP, 0x6092, FRAGMENT_DATA);
    InnerHeaderValid(28, 1, UDP, 0x6092, FRAGMENT_DATA);
    FragmentFields(UDP, 0x6092);
    OutcomeIsRewrite(f);
    FragmentRewritten(Stripped(f));
    var g := Rewrite(Source, Stripped(f), UE_IP, NAT_IP).value;
    Tunnel.Slice16(g, 34, |g|, 6);
    Tunnel.Slice16(f, 34, |f|, 6);
  }

  /** A later TCP fragment with fewer than twenty bytes of payload is not sent at all. */
  lemma ShortFragmentDropped()
    ensures var f, r := Fragment(TCP, 0x609d), Outcome(Fragment(TCP, 0x609d));
            HeaderPresent(f) && HeaderValid(f) && r.verdict == Drop && r.slot == Some(DropSlot)
  {
    hide WordSum, Fold, Inner, Stripped, Outcome, Rewrite;
    var f := Fragment(TCP, 0x609d);
    InnerFields(28, 1, TCP, 0x609d, FRAGMENT_DATA);
    InnerHeaderValid(28, 1, TCP, 0x609d, FRAGMENT_DATA);
    FragmentFields(TCP, 0x609d);
    OutcomeIsRewrite(f);
    RewriteEffect(Source, Stripped(f), UE_IP, NAT_IP);
  }
}
