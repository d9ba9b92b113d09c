/**
 Recognition told from the bytes of a frame: for each outcome, exactly the frames
 that have it. Offsets, ports and types stand here as numbers, and the extension
 headers of a tunnel as a chain of positions rather than a walk.
 */
module Recognition {
  import opened Bytes
  import opened Gtpu

  /** The big-endian number in four bytes. */
  function Number(f: seq<byte>, o: nat): nat
    requires o + 4 <= |f|
  {
    (f[o] as int) * 0x100_0000 + (f[o + 1] as int) * 0x1_0000 + (f[o + 2] as int) * 0x100 + f[o + 3]
  }

  lemma NumberIsField(f: seq<byte>, o: nat)
    requires o + 4 <= |f|
    ensures Be32(f, o) == Number(f, o)
  {
  }

  /** Ethernet type 0x0800 announces IPv4. */
  predicate SaysIpv4(f: seq<byte>) {
    |f| >= 14 && f[12] == 0x08 && f[13] == 0x00
  }

  /** An IPv4 header of version 4 with at least five words. */
  predicate Ipv4(f: seq<byte>) {
    |f| >= 34 && SaysIpv4(f) && 0x45 <= f[14] <= 0x4f
  }

  /** Where the IPv4 header ends. */
  function L4(f: seq<byte>): nat
    requires Ipv4(f)
  {
    14 + 4 * (f[14] - 0x40)
  }

  /** A UDP datagram, by its protocol number. */
  predicate Udp(f: seq<byte>) {
    Ipv4(f) && f[23] == 17
  }

  /** A complete UDP header with destination port 2152. */
  predicate ToGtpPort(f: seq<byte>) {
    Udp(f) && L4(f) + 8 <= |f| && (f[L4(f) + 2] as int) * 256 + f[L4(f) + 3] == 2152
  }

  /** The frame is no tunnel and may be encapsulated: not UDP, or UDP to another port. */
  predicate NoTunnel(f: seq<byte>) {
    Ipv4(f) && (f[23] == 17 ==> L4(f) + 8 <= |f| && !ToGtpPort(f))
  }

  // ----- The GTP-U header -----

  /** Where the GTP-U header begins. */
  function Gtp(f: seq<byte>): nat
    requires ToGtpPort(f)
  {
    L4(f) + 8
  }

  /** A GTP version 1 header with the protocol type bit, announcing a G-PDU. */
  predicate Gpdu(f: seq<byte>) {
    ToGtpPort(f) && Gtp(f) + 8 <= |f| && 0x30 <= f[Gtp(f)] <= 0x3f && f[Gtp(f) + 1] == 0xff
  }

  /** One of the E, S and PN flags is set, so that four more bytes follow. */
  predicate Options(f: seq<byte>) {
    Gpdu(f) && f[Gtp(f)] % 8 != 0
  }

  /** The extension header at `x` ends at `y`: its first byte counts its words. */
  predicate Link(f: seq<byte>, x: nat, y: nat) {
    x < |f| && f[x] > 0 && y == x + 4 * (f[x] as int) && y <= |f|
  }

  /** A type other than zero right before `x` announces an extension header there. */
  predicate Announced(f: seq<byte>, x: nat) {
    0 < x <= |f| && f[x - 1] != 0
  }

  /**
   The positions that extension headers begin at, and the one where they end:
   where none is announced, or behind the `limit`-th.
   */
  ghost predicate Chain(f: seq<byte>, ats: seq<nat>, limit: nat) {
    && 0 < |ats| <= limit + 1
    && (forall i :: 0 <= i < |ats| - 1 ==> Announced(f, ats[i]) && Link(f, ats[i], ats[i + 1]))
    && (|ats| == limit + 1 || !Announced(f, ats[|ats| - 1]))
  }

  /** A chain of at most `limit` headers leads from `from` to `to`. */
  ghost predicate Leads(f: seq<byte>, from: nat, to: nat, limit: nat) {
    exists ats: seq<nat> :: Chain(f, ats, limit) && ats[0] == from && ats[|ats| - 1] == to
  }

  lemma {:induction false} WalkLeads(f: seq<byte>, at: nat, limit: nat) returns (ats: seq<nat>)
    requires 0 < at <= |f| && WalkLimited(f, at, f[at - 1], limit).Payload?
    ensures Chain(f, ats, limit) && ats[0] == at
    ensures ats[|ats| - 1] == WalkLimited(f, at, f[at - 1], limit).at
    decreases limit
  {
    if limit == 0 || f[at - 1] == 0 {
      ats := [at];
    } else {
      var to := at + ExtensionSize(f, at).value;
      var rest := WalkLeads(f, to, limit - 1);
      ats := [at] + rest;
      assert forall i :: 0 < i < |ats| ==> ats[i] == rest[i - 1];
    }
  }

  lemma {:induction false} ChainIsWalk(f: seq<byte>, ats: seq<nat>, limit: nat)
    requires Chain(f, ats, limit) && 0 < ats[0] <= |f|
    ensures WalkLimited(f, ats[0], f[ats[0] - 1], limit) == Payload(ats[|ats| - 1])
    decreases limit
  {
    if |ats| > 1 {
      assert Announced(f, ats[0]) && Link(f, ats[0], ats[1]);
      var rest := ats[1..];
      assert forall i :: 0 <= i < |rest| ==> rest[i] == ats[i + 1];
      ChainIsWalk(f, rest, limit - 1);
    }
  }

  /** The walk ends exactly where a chain leads. */
  lemma WalkIffLeads(f: seq<byte>, at: nat, to: nat, limit: nat)
    requires 0 < at <= |f|
    ensures WalkLimited(f, at, f[at - 1], limit) == Payload(to) <==> Leads(f, at, to, limit)
  {
    hide WalkLimited;
    if WalkLimited(f, at, f[at - 1], limit) == Payload(to) {
      var ats := WalkLeads(f, at, limit);
    }
    forall ats: seq<nat> | Chain(f, ats, limit) && ats[0] == at && ats[|ats| - 1] == to
      ensures WalkLimited(f, at, f[at - 1], limit) == Payload(to)
    {
      ChainIsWalk(f, ats, limit);
    }
  }

  /** The packet inside begins at `at`: right behind the header, or where at most four extension headers lead. */
  ghost predicate InnerAt(f: seq<byte>, at: nat) {
    && Gpdu(f)
    && if Options(f) then Gtp(f) + 12 <= |f| && Leads(f, Gtp(f) + 12, at, 4) else at == Gtp(f) + 8
  }

  // ----- Frames to the GTP-U port -----

  lemma GtpuHeader(f: seq<byte>)
    requires ToGtpPort(f)
    ensures Gtp(f) >= 42 && Parse(f) == ParseGtpu(f, Gtp(f))
    ensures Gpdu(f) <==> Gtp(f) + 8 <= |f| && f[Gtp(f)] / 32 == 1 && f[Gtp(f)] / 16 % 2 == 1 && f[Gtp(f) + 1] == 255
  {
    hide ParseGtpu;
  }

  /** The whole header is there, with the optional bytes if they are announced. */
  predicate WholeGpdu(f: seq<byte>) {
    Gpdu(f) && (Options(f) ==> Gtp(f) + 12 <= |f|)
  }

  /** What lies behind a whole header decides: a packet, or a broken chain. */
  lemma BehindGpdu(f: seq<byte>)
    requires WholeGpdu(f)
    ensures forall at: nat :: InnerAt(f, at) ==> at >= 14 && Parse(f) == ParseInner(f, Be32(f, Gtp(f) + 4), at)
    ensures (forall at: nat :: !InnerAt(f, at)) ==> Parse(f) == Bad
  {
    hide WalkLimited, Leads, Parse;
    GtpuHeader(f);
    var g := Gtp(f);
    if Options(f) {
      LimitedWalkInFrame(f, g + 12, f[g + 11], 4);
      forall at: nat
        ensures WalkLimited(f, g + 12, f[g + 11], 4) == Payload(at) <==> InnerAt(f, at)
      {
        WalkIffLeads(f, g + 12, at, 4);
      }
    } else {
      assert InnerAt(f, g + 8);
    }
  }

  /** Without a whole header there is nothing behind it. */
  lemma NoWholeGpdu(f: seq<byte>)
    requires ToGtpPort(f) && !WholeGpdu(f)
    ensures forall at: nat :: !InnerAt(f, at)
    ensures Parse(f) == if Gtp(f) + 8 > |f| || Gpdu(f) then Truncated else Stack
  {
    hide Parse, Leads;
    GtpuHeader(f);
  }

  /** Frames to any other port, or to none. */
  lemma OutsideGtpu(f: seq<byte>)
    requires !ToGtpPort(f)
    ensures forall at: nat :: !InnerAt(f, at)
    ensures Parse(f) ==
      if |f| < 14 then Truncated
      else if !SaysIpv4(f) then Stack
      else if |f| < 34 then Truncated
      else if !Ipv4(f) then Stack
      else if NoTunnel(f) then Bare(Number(f, 30))
      else if L4(f) > |f| then Stack
      else Truncated
  {
    hide Leads;
    if |f| >= 34 {
      NumberIsField(f, 30);
    }
  }

  // ----- Each outcome, for every frame -----

  /**
   A tunnel: a G-PDU to port 2152 whose inner packet, where the extension headers
   lead, has its fixed part and is of version 4; with these fields.
   */
  lemma TunnelIff(f: seq<byte>, teid: u32, ueIp: u32, innerSrc: u32, strip: nat)
    ensures Parse(f) == Tunnel(teid, ueIp, innerSrc, strip)
        <==> && InnerAt(f, 14 + strip)
             && strip + 34 <= |f| && f[14 + strip] / 16 == 4
             && Number(f, Gtp(f) + 4) == teid
             && Number(f, strip + 30) == ueIp && Number(f, strip + 26) == innerSrc
  {
    hide Leads, Parse, Number;
    if !ToGtpPort(f) {
      OutsideGtpu(f);
    } else if !WholeGpdu(f) {
      NoWholeGpdu(f);
    } else {
      BehindGpdu(f);
      NumberIsField(f, Gtp(f) + 4);
      if strip + 34 <= |f| {
        NumberIsField(f, strip + 30);
        NumberIsField(f, strip + 26);
      }
    }
  }

  /** A candidate for encapsulation: IPv4 that is not UDP, or UDP with a whole header to a port other than 2152. */
  lemma BareIff(f: seq<byte>, dst: u32)
    ensures Parse(f) == Bare(dst) <==> NoTunnel(f) && Number(f, 30) == dst
  {
    hide Leads, Parse, Number;
    if !ToGtpPort(f) {
      OutsideGtpu(f);
    } else if !WholeGpdu(f) {
      NoWholeGpdu(f);
    } else {
      BehindGpdu(f);
    }
  }

  /** A broken chain: a whole G-PDU header from which no chain of extension headers leads anywhere. */
  lemma BadIff(f: seq<byte>)
    ensures Parse(f) == Bad <==> WholeGpdu(f) && forall at: nat :: !InnerAt(f, at)
  {
    hide Leads, Parse, Number;
    if !ToGtpPort(f) {
      OutsideGtpu(f);
    } else if !WholeGpdu(f) {
      NoWholeGpdu(f);
    } else {
      BehindGpdu(f);
    }
  }

  /** Cut short in a header that the bytes before it announce. */
  ghost predicate CutShort(f: seq<byte>) {
    || |f| < 14
    || (SaysIpv4(f) && |f| < 34)
    || (Udp(f) && L4(f) <= |f| < L4(f) + 8)
    || (ToGtpPort(f) && |f| < Gtp(f) + 8)
    || (Options(f) && |f| < Gtp(f) + 12)
    || (exists at: nat :: InnerAt(f, at) && |f| < at + 20)
  }

  lemma TruncatedIff(f: seq<byte>)
    ensures Parse(f) == Truncated <==> CutShort(f)
  {
    hide Leads, Parse, Number;
    if !ToGtpPort(f) {
      OutsideGtpu(f);
    } else if !WholeGpdu(f) {
      NoWholeGpdu(f);
    } else {
      BehindGpdu(f);
    }
  }

  /** Nothing for this program: another protocol, a malformed IPv4 header, no G-PDU, or no IPv4 inside. */
  ghost predicate ForKernel(f: seq<byte>) {
    || (|f| >= 14 && !SaysIpv4(f))
    || (|f| >= 34 && SaysIpv4(f) && !Ipv4(f))
    || (Udp(f) && L4(f) > |f|)
    || (ToGtpPort(f) && Gtp(f) + 8 <= |f| && !Gpdu(f))
    || (exists at: nat :: InnerAt(f, at) && at + 20 <= |f| && f[at] / 16 != 4)
  }

  lemma StackIff(f: seq<byte>)
    ensures Parse(f) == Stack <==> ForKernel(f)
  {
    hide Leads, Parse, Number;
    if !ToGtpPort(f) {
      OutsideGtpu(f);
    } else if !WholeGpdu(f) {
      NoWholeGpdu(f);
    } else {
      BehindGpdu(f);
    }
  }
}
