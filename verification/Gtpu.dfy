/**
 The tunnel formats: recognising a GTP-U G-PDU (3GPP TS 29.281 sections 5.1 and
 5.2), stripping its outer headers, and building them in the plain form and in
 the 5G downlink form with a PDU Session Container (3GPP TS 38.415 section 5.5).
 */
module Gtpu {
  import opened Bytes
  import opened Checksum
  import opened Nat
  import Rules

  const GTP_PORT: u16 := 2152
  const G_PDU: byte := 0xff
  const PDU_SESSION_CONTAINER: byte := 0x85
  const PLAIN_OVERHEAD: nat := 36
  const NR_OVERHEAD: nat := 44
  const MAX_EXTENSIONS: nat := 4

  // ----- The extension header chain -----

  datatype Walk = Malformed | Payload(at: nat)

  /** The size of the extension header at `at`, or None when it does not fit the frame. */
  function ExtensionSize(f: seq<byte>, at: nat): (r: Option<nat>)
    ensures r.Some? ==> 4 <= r.value && at + r.value <= |f|
  {
    if at + 1 > |f| then None
    else if (f[at] as int) * 4 < 4 then None
    else if at + (f[at] as int) * 4 > |f| then None
    else Some((f[at] as int) * 4)
  }

  /** The walk of TS 29.281 section 5.2.1: follow next-type bytes until type zero. */
  function WalkChain(f: seq<byte>, at: nat, next: byte): Walk
    decreases |f| - at
  {
    if next == 0 then Payload(at)
    else match ExtensionSize(f, at)
      case None => Malformed
      case Some(size) => WalkChain(f, at + size, f[at + size - 1])
  }

  /** How many extension headers that walk looks at. */
  function ChainLength(f: seq<byte>, at: nat, next: byte): nat
    decreases |f| - at
  {
    if next == 0 then 0
    else match ExtensionSize(f, at)
      case None => 1
      case Some(size) => 1 + ChainLength(f, at + size, f[at + size - 1])
  }

  /** The walk that gives up silently after `limit` headers and takes the rest for payload. */
  function WalkLimited(f: seq<byte>, at: nat, next: byte, limit: nat): Walk
    decreases limit
  {
    if limit == 0 || next == 0 then Payload(at)
    else match ExtensionSize(f, at)
      case None => Malformed
      case Some(size) => WalkLimited(f, at + size, f[at + size - 1], limit - 1)
  }

  /** The data plane's loop over at most four extension headers. */
  method WalkExtensions(f: seq<byte>, start: nat, first: byte) returns (ok: bool, cursor: nat, size: nat)
    requires start <= |f|
    ensures cursor == start + size
    ensures ok ==> cursor <= |f|
    ensures WalkLimited(f, start, first, MAX_EXTENSIONS) == if ok then Payload(cursor) else Malformed
  {
    cursor, size := start, 0;
    var next := first;
    var i := 0;
    while i < MAX_EXTENSIONS
      invariant 0 <= i <= MAX_EXTENSIONS
      invariant cursor == start + size <= |f|
      invariant WalkLimited(f, start, first, MAX_EXTENSIONS) == WalkLimited(f, cursor, next, MAX_EXTENSIONS - i)
    {
      if next == 0 {
        break;
      }
      if cursor + 1 > |f| {
        return false, cursor, size;
      }
      var extension := (f[cursor] as int) * 4;
      if extension < 4 {
        return false, cursor, size;
      }
      if cursor + extension > |f| {
        return false, cursor, size;
      }
      next := f[cursor + extension - 1];
      cursor := cursor + extension;
      size := size + extension;
      i := i + 1;
    }
    ok := true;
  }

  lemma {:induction false} WalkAdvances(f: seq<byte>, at: nat, next: byte)
    requires next != 0
    ensures WalkChain(f, at, next).Malformed? || WalkChain(f, at, next).at >= at + 4
    decreases |f| - at
  {
    var size := ExtensionSize(f, at);
    if size.Some? && f[at + size.value - 1] != 0 {
      WalkAdvances(f, at + size.value, f[at + size.value - 1]);
    }
  }

  /** The limited walk agrees with the unlimited one exactly on chains no longer than the limit. */
  lemma {:induction false} LimitedWalkIff(f: seq<byte>, at: nat, next: byte, limit: nat)
    ensures WalkLimited(f, at, next, limit) == WalkChain(f, at, next) <==> ChainLength(f, at, next) <= limit
    decreases limit
  {
    if next != 0 {
      if limit == 0 {
        WalkAdvances(f, at, next);
      } else {
        var size := ExtensionSize(f, at);
        if size.Some? {
          LimitedWalkIff(f, at + size.value, f[at + size.value - 1], limit - 1);
        }
      }
    }
  }

  lemma {:induction false} LimitedWalkInFrame(f: seq<byte>, at: nat, next: byte, limit: nat)
    requires at <= |f|
    ensures var w := WalkLimited(f, at, next, limit); w.Payload? ==> at <= w.at <= |f|
    ensures next != 0 && limit > 0 ==>
              var w := WalkLimited(f, at, next, limit); w.Payload? ==> w.at >= at + 4
    decreases limit
  {
    if next != 0 && limit > 0 {
      var size := ExtensionSize(f, at);
      if size.Some? {
        LimitedWalkInFrame(f, at + size.value, f[at + size.value - 1], limit - 1);
      }
    }
  }

  /** The payload position by TS 29.281: the next-type byte counts only when the E flag is set. */
  function StandardWalk(f: seq<byte>, at: nat, e: bool, next: byte): Walk {
    if e then WalkChain(f, at, next) else Payload(at)
  }

  /**
   The data plane starts the walk whenever any of the E, S and PN flags is set and
   stops after four headers. It finds the standard's payload position, or rejects
   with the standard, exactly when the chain has at most four headers and,
   without the E flag, the unused next-type byte is zero.
   */
  lemma WalkMeetsStandardIff(f: seq<byte>, at: nat, e: bool, next: byte)
    requires at <= |f|
    ensures WalkLimited(f, at, next, MAX_EXTENSIONS) == StandardWalk(f, at, e, next)
        <==> ChainLength(f, at, next) <= (if e then MAX_EXTENSIONS else 0)
  {
    if e {
      LimitedWalkIff(f, at, next, MAX_EXTENSIONS);
    } else {
      LimitedWalkInFrame(f, at, next, MAX_EXTENSIONS);
    }
  }

  // ----- Recognising frames -----

  /** What the data plane makes of a frame before it looks at any rule. */
  datatype Parsed =
    | Truncated                                  // dropped without a count
    | Stack                                      // left to the kernel
    | Bad                                        // broken extension chain, dropped
    | Bare(dst: u32)                             // no tunnel: may be encapsulated
    | Tunnel(teid: u32, ueIp: u32, innerSrc: u32, strip: nat)

  /** The inner packet of a tunnel, at offset `at`. */
  function ParseInner(f: seq<byte>, teid: u32, at: nat): Parsed
    requires at >= ETH_LEN
  {
    if at + 20 > |f| then Truncated
    else if f[at] / 16 != 4 then Stack
    else Tunnel(teid, Be32(f, at + 16), Be32(f, at + 12), at - ETH_LEN)
  }

  /** The GTP-U header at offset `gtp` and what follows it. */
  function ParseGtpu(f: seq<byte>, gtp: nat): Parsed
    requires gtp >= ETH_LEN
  {
    if gtp + 8 > |f| then Truncated
    else if f[gtp] / 32 != 1 || f[gtp] / 16 % 2 == 0 || f[gtp + 1] != G_PDU then Stack
    else
      var teid := Be32(f, gtp + 4);
      if f[gtp] % 8 == 0 then ParseInner(f, teid, gtp + 8)
      else if gtp + 12 > |f| then Truncated
      else
        LimitedWalkInFrame(f, gtp + 12, f[gtp + 11], MAX_EXTENSIONS);
        match WalkLimited(f, gtp + 12, f[gtp + 11], MAX_EXTENSIONS)
        case Malformed => Bad
        case Payload(at) => ParseInner(f, teid, at)
  }

  function Parse(f: seq<byte>): Parsed {
    if |f| < ETH_LEN then Truncated
    else if Be16(f, 12) != 0x0800 then Stack
    else if |f| < 34 then Truncated
    else if f[VERSION_IHL] / 16 != 4 || f[VERSION_IHL] % 16 < 5 then Stack
    else if f[PROTOCOL] != UDP then Bare(Be32(f, DADDR))
    else
      var udp := ETH_LEN + HeaderLen(f);
      if udp > |f| then Stack
      else if udp + 8 > |f| then Truncated
      else if Be16(f, udp + 2) != GTP_PORT then Bare(Be32(f, DADDR))
      else ParseGtpu(f, udp + 8)
  }

  // ----- Headers -----

  function EthHeader(c: Rules.Config): (h: seq<byte>)
    ensures |h| == 14
  {
    c.dmac + c.smac + Enc16(0x0800)
  }

  /** The checksum of the outer IPv4 header, from its nonzero words, with two carries. */
  function OuterCheck(c: Rules.Config, tot: u16): u16 {
    TwoCarries(0x4500 + tot + 0x4011 + Halves(c.srcIp) + Halves(c.dstIp));
    0xffff - Carry(Carry(0x4500 + tot + 0x4011 + Halves(c.srcIp) + Halves(c.dstIp)))
  }

  function OuterIp(c: Rules.Config, tot: u16): (h: seq<byte>)
    ensures |h| == 20
  {
    [0x45, 0] + Enc16(tot) + [0, 0, 0, 0, 64, UDP] + Enc16(OuterCheck(c, tot)) + Enc32(c.srcIp) + Enc32(c.dstIp)
  }

  function UdpHeader(len: u16): (h: seq<byte>)
    ensures |h| == 8
  {
    Enc16(GTP_PORT) + Enc16(GTP_PORT) + Enc16(len) + [0, 0]
  }

  function GtpHeader(flags: byte, len: u16, teid: u32): (h: seq<byte>)
    ensures |h| == 8
  {
    [flags, G_PDU] + Enc16(len) + Enc32(teid)
  }

  /** Sequence number, N-PDU number and a downlink PDU Session Container. */
  function NrOptions(): (h: seq<byte>)
    ensures |h| == 8
  {
    [0, 0, 0, PDU_SESSION_CONTAINER, 1, 0, 0, 0]
  }

  datatype Format = Plain | Nr {
    function Overhead(): nat {
      if Plain? then PLAIN_OVERHEAD else NR_OVERHEAD
    }
  }

  /** Everything in front of the inner packet; lengths are 16-bit and wrap. */
  function OuterHeaders(format: Format, c: Rules.Config, inner: u16): (h: seq<byte>)
    ensures |h| == ETH_LEN + format.Overhead()
  {
    var extra := format.Overhead() - PLAIN_OVERHEAD;
    EthHeader(c)
    + OuterIp(c, (inner + format.Overhead()) % 0x1_0000)
    + UdpHeader((inner + 16 + extra) % 0x1_0000)
    + GtpHeader(if format.Plain? then 0x30 else 0x34, (inner + extra) % 0x1_0000, c.teidOut)
    + (if format.Plain? then [] else NrOptions())
  }

  /** Encapsulation; `None` is the error return. `headroom` is the free space before the frame. */
  function Encap(format: Format, c: Rules.Config, f: seq<byte>, headroom: nat): Option<seq<byte>> {
    if |f| < 34 || headroom < format.Overhead() then None
    else Some(OuterHeaders(format, c, Be16(f, TOT_LEN)) + f[ETH_LEN..])
  }

  /** Decapsulation: drop `strip` bytes and write a new Ethernet header; `None` is the error return. */
  function Decap(c: Rules.Config, f: seq<byte>, strip: nat): Option<seq<byte>> {
    if strip + ETH_LEN > |f| then None
    else
      var g := EthHeader(c) + f[strip + ETH_LEN..];
      if IsIpv4(g) then Some(g) else None
  }

  // ----- Accepted frames decapsulate safely -----

  lemma TunnelInFrame(f: seq<byte>)
    requires Parse(f).Tunnel?
    ensures var p := Parse(f);
            && PLAIN_OVERHEAD <= p.strip && p.strip + 34 <= |f|
            && f[p.strip + ETH_LEN] / 16 == 4
            && Be32(f, p.strip + SADDR) == p.innerSrc
            && Be32(f, p.strip + DADDR) == p.ueIp
  {
  }

  /** Decapsulation fails exactly if no packet of version 4 with its fixed header lies behind `strip` bytes. */
  lemma DecapIff(c: Rules.Config, f: seq<byte>, strip: nat)
    ensures Decap(c, f, strip).Some? <==> strip + 34 <= |f| && f[strip + 14] / 16 == 4
    ensures Decap(c, f, strip).Some? ==>
              var g := Decap(c, f, strip).value;
              g[..6] == c.dmac && g[6..12] == c.smac && g[12] == 8 && g[13] == 0 && g[14..] == f[strip + 14..]
  {
    if strip + 14 <= |f| {
      var g := EthHeader(c) + f[strip + ETH_LEN..];
      assert g[14..] == f[strip + 14..];
      assert |g| >= 34 ==> g[14] == f[strip + 14];
    }
  }

  /**
   Once a frame is recognised as a tunnel, decapsulation takes none of its error
   returns; the inner packet follows the new Ethernet header unchanged, and the
   source saved for NAT is the one in the packet.
   */
  lemma DecapSafe(c: Rules.Config, f: seq<byte>)
    requires Parse(f).Tunnel?
    ensures var p := Parse(f);
            var g := Decap(c, f, p.strip);
            && g.Some?
            && |g.value| == |f| - p.strip
            && g.value[..6] == c.dmac && g.value[6..12] == c.smac && Be16(g.value, 12) == 0x0800
            && g.value[ETH_LEN..] == f[ETH_LEN + p.strip..]
            && IsIpv4(g.value) && Be32(g.value, SADDR) == p.innerSrc && Be32(g.value, DADDR) == p.ueIp
  {
    hide Parse;
    TunnelInFrame(f);
    var s := Parse(f).strip;
    var g := EthHeader(c) + f[s + ETH_LEN..];
    assert forall i :: 14 <= i < |g| ==> g[i] == f[i + s];
    assert g[12] == 8 && g[13] == 0;
  }
}
