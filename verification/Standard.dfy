/**
 Whole-frame recognition against the standard: where the data plane's reading of
 a GTP-U header departs from 3GPP TS 29.281 section 5, and on which frames.
 */
module Standard {
  import opened Bytes
  import opened Nat
  import opened Gtpu
  import opened Dataplane
  import Policy
  import Recognition
  import Rules
  import Tunnel

  /** The offset of the GTP-U header, for frames that come with its UDP port. */
  function GtpuAt(f: seq<byte>): (r: Option<nat>)
    ensures r.Some? ==> ETH_LEN <= r.value <= |f|
  {
    if Recognition.ToGtpPort(f) then Some(Recognition.Gtp(f)) else None
  }

  /** The E flag, which alone makes the next-type byte count. */
  predicate EFlag(f: seq<byte>, gtp: nat)
    requires gtp < |f|
  {
    f[gtp] / 4 % 2 == 1
  }

  lemma {:induction false} ChainInFrame(f: seq<byte>, at: nat, next: byte)
    requires at <= |f|
    ensures var w := WalkChain(f, at, next); w.Payload? ==> at <= w.at <= |f|
    decreases |f| - at
  {
    var size := ExtensionSize(f, at);
    if next != 0 && size.Some? {
      ChainInFrame(f, at + size.value, f[at + size.value - 1]);
    }
  }

  /** A GTP-U header read as the standard says. */
  function StandardGtpu(f: seq<byte>, gtp: nat): Parsed
    requires gtp >= ETH_LEN
  {
    if gtp + 8 > |f| then Truncated
    else if f[gtp] / 32 != 1 || f[gtp] / 16 % 2 == 0 || f[gtp + 1] != 0xff then Stack
    else
      var teid := Be32(f, gtp + 4);
      if f[gtp] % 8 == 0 then ParseInner(f, teid, gtp + 8)
      else if gtp + 12 > |f| then Truncated
      else
        ChainInFrame(f, gtp + 12, f[gtp + 11]);
        match StandardWalk(f, gtp + 12, EFlag(f, gtp), f[gtp + 11])
        case Malformed => Bad
        case Payload(at) => ParseInner(f, teid, at)
  }

  /** Frames that do not come with that port. */
  function OtherFrame(f: seq<byte>): Parsed {
    if Recognition.NoTunnel(f) then Bare(Recognition.Number(f, 30))
    else if |f| < 14 || (Recognition.SaysIpv4(f) && |f| < 34) then Truncated
    else if Recognition.Udp(f) && Recognition.L4(f) <= |f| then Truncated
    else Stack
  }

  /** Recognition of a frame as the standard says. */
  function StandardParse(f: seq<byte>): Parsed {
    if GtpuAt(f).None? then OtherFrame(f) else StandardGtpu(f, GtpuAt(f).value)
  }

  /** The header is that of a G-PDU and has its optional four bytes. */
  predicate HasOptions(f: seq<byte>, gtp: nat) {
    && gtp + 12 <= |f|
    && f[gtp] / 32 == 1 && f[gtp] / 16 % 2 == 1 && f[gtp + 1] == 0xff
    && f[gtp] % 8 != 0
  }

  /** At most four extension headers, and without the E flag a next-type byte of zero. */
  predicate ChainOk(f: seq<byte>, gtp: nat)
    requires HasOptions(f, gtp)
  {
    ChainLength(f, gtp + 12, f[gtp + 11]) <= if EFlag(f, gtp) then MAX_EXTENSIONS else 0
  }

  /** Two places at which no IPv4 packet begins, for the same reason. */
  predicate SameRefusal(f: seq<byte>, x: Walk, y: Walk) {
    && x.Payload? && y.Payload?
    && if x.at + 20 > |f| then y.at + 20 > |f|
       else y.at + 20 <= |f| && f[x.at] / 16 != 4 && f[y.at] / 16 != 4
  }

  lemma GtpuMeetsStandardIff(f: seq<byte>, gtp: nat)
    requires gtp >= ETH_LEN
    ensures ParseGtpu(f, gtp) == StandardGtpu(f, gtp)
        <==> !HasOptions(f, gtp) || ChainOk(f, gtp)
             || SameRefusal(f, WalkLimited(f, gtp + 12, f[gtp + 11], MAX_EXTENSIONS),
                            StandardWalk(f, gtp + 12, EFlag(f, gtp), f[gtp + 11]))
  {
    hide WalkLimited, WalkChain, ChainLength;
    if HasOptions(f, gtp) {
      var at, next := gtp + 12, f[gtp + 11];
      WalkMeetsStandardIff(f, at, EFlag(f, gtp), next);
      LimitedWalkInFrame(f, at, next, MAX_EXTENSIONS);
      ChainInFrame(f, at, next);
    }
  }

  lemma ParseIsGtpu(f: seq<byte>)
    ensures GtpuAt(f).Some? ==> Parse(f) == ParseGtpu(f, GtpuAt(f).value)
    ensures GtpuAt(f).None? ==> Parse(f) == OtherFrame(f) && !Parse(f).Tunnel?
  {
    hide ParseGtpu, Parse;
    if GtpuAt(f).Some? {
      Recognition.GtpuHeader(f);
    } else {
      Recognition.OutsideGtpu(f);
    }
  }

  /**
   For every frame, recognition is that of the standard exactly when the frame has
   no optional GTP-U fields, or its extension chain is one the data plane reads as
   the standard does, or both readings end where no IPv4 packet begins.
   */
  lemma ParseMeetsStandardIff(f: seq<byte>)
    ensures Parse(f) == StandardParse(f)
        <==> match GtpuAt(f)
             case None => true
             case Some(gtp) =>
               !HasOptions(f, gtp) || ChainOk(f, gtp)
               || SameRefusal(f, WalkLimited(f, gtp + 12, f[gtp + 11], MAX_EXTENSIONS),
                              StandardWalk(f, gtp + 12, EFlag(f, gtp), f[gtp + 11]))
  {
    hide Parse, ParseGtpu, StandardGtpu, GtpuAt, WalkLimited, StandardWalk;
    ParseIsGtpu(f);
    if GtpuAt(f).Some? {
      GtpuMeetsStandardIff(f, GtpuAt(f).value);
    }
  }

  /**
   In particular, a frame that either of the two takes for a subscriber's tunnel is
   read alike exactly when its chain is one the data plane reads as the standard does.
   */
  lemma TunnelMeetsStandardIff(f: seq<byte>)
    requires Parse(f).Tunnel? || StandardParse(f).Tunnel?
    ensures GtpuAt(f).Some?
    ensures var gtp := GtpuAt(f).value;
            Parse(f) == StandardParse(f) <==> !HasOptions(f, gtp) || ChainOk(f, gtp)
  {
    hide WalkLimited, WalkChain, ChainLength, Parse, GtpuAt;
    ParseIsGtpu(f);
    ParseMeetsStandardIff(f);
    var gtp := GtpuAt(f).value;
    if HasOptions(f, gtp) {
      LimitedWalkInFrame(f, gtp + 12, f[gtp + 11], MAX_EXTENSIONS);
      ChainInFrame(f, gtp + 12, f[gtp + 11]);
    }
  }

  // ----- Frames that are read differently -----

  /** A G-PDU with the given flags, optional fields and extension headers, and what follows them. */
  function Gpdu(c: Rules.Config, flags: byte, options: seq<byte>, inner: seq<byte>): seq<byte> {
    EthHeader(c)
    + OuterIp(c, (36 + |options| + |inner|) % 0x1_0000)
    + UdpHeader((16 + |options| + |inner|) % 0x1_0000)
    + GtpHeader(flags, (|options| + |inner|) % 0x1_0000, c.teidOut)
    + (options + inner)
  }

  lemma GpduParts(c: Rules.Config, flags: byte, options: seq<byte>, inner: seq<byte>)
    ensures var f := Gpdu(c, flags, options, inner);
            && |f| == 50 + |options| + |inner|
            && f[..14] == EthHeader(c) && f[14..34] == OuterIp(c, (36 + |options| + |inner|) % 0x1_0000)
            && f[34..42] == UdpHeader((16 + |options| + |inner|) % 0x1_0000)
            && f[42..50] == GtpHeader(flags, (|options| + |inner|) % 0x1_0000, c.teidOut)
            && f[50..] == options + inner
  {
    hide EthHeader, OuterIp, UdpHeader, GtpHeader;
  }

  lemma GpduFields(c: Rules.Config, flags: byte, options: seq<byte>, inner: seq<byte>)
    ensures var f := Gpdu(c, flags, options, inner);
            && |f| == 50 + |options| + |inner| && GtpuAt(f) == Some(42)
            && f[42] == flags && f[43] == G_PDU && Be32(f, 46) == c.teidOut
            && f[50..] == options + inner
  {
    hide Gpdu, OuterIp, GtpHeader;
    GpduParts(c, flags, options, inner);
    var f := Gpdu(c, flags, options, inner);
    Tunnel.IpFields(c, (36 + |options| + |inner|) % 0x1_0000);
    Tunnel.GtpFields(flags, (|options| + |inner|) % 0x1_0000, c.teidOut);
    var e, h, t := f[..14], f[14..34], f[42..50];
    assert e[12] == 8 && e[13] == 0 && f[12] == e[12] && f[13] == e[13];
    assert f[14] == h[0] && f[23] == h[9] && f[42] == t[0] && f[43] == t[1];
    Tunnel.Slice16(f, 34, 42, 2);
    Tunnel.Slice32(f, 42, 50, 4);
  }

  /** Sequence number 1 and, in the unused next-type byte, what is left of another packet. */
  const STALE_OPTIONS: seq<byte> := [0, 1, 0, PDU_SESSION_CONTAINER]

  /** A numbered G-PDU (S flag only) whose unused next-type byte is not zero. */
  function Stale(c: Rules.Config, inner: seq<byte>): seq<byte> {
    Gpdu(c, 0x32, STALE_OPTIONS, inner)
  }

  lemma StaleFields(c: Rules.Config, inner: seq<byte>)
    requires |inner| >= 20 && inner[0] / 16 == 4
    ensures var f := Stale(c, inner);
            && GtpuAt(f) == Some(42) && HasOptions(f, 42) && !EFlag(f, 42) && Be32(f, 46) == c.teidOut
            && |f| == 54 + |inner| && f[53] == PDU_SESSION_CONTAINER && f[54..] == inner && f[54] == inner[0]
            && StandardParse(f) == Tunnel(c.teidOut, Be32(inner, 16), Be32(inner, 12), 40)
            && Parse(f) == match WalkLimited(f, 54, PDU_SESSION_CONTAINER, MAX_EXTENSIONS)
                           case Malformed => Bad
                           case Payload(at) => if at >= ETH_LEN then ParseInner(f, c.teidOut, at) else Bad
  {
    hide Parse, GtpuAt, Gpdu, WalkLimited;
    var f := Stale(c, inner);
    GpduFields(c, 0x32, STALE_OPTIONS, inner);
    ParseIsGtpu(f);
    var tail := f[50..];
    assert tail[3] == PDU_SESSION_CONTAINER && f[53] == tail[3];
    assert tail[4..] == inner && f[54..] == inner;
    assert f[54] == inner[0];
    Tunnel.Slice32(f, 54, |f|, 16);
    Tunnel.Slice32(f, 54, |f|, 12);
    LimitedWalkInFrame(f, 54, PDU_SESSION_CONTAINER, MAX_EXTENSIONS);
  }

  /** Around any IPv4 packet such a frame is a tunnel to be served, and is never read as that tunnel. */
  lemma StaleNextTypeMisread(c: Rules.Config, inner: seq<byte>)
    requires |inner| >= 20 && inner[0] / 16 == 4
    ensures var f := Stale(c, inner);
            && StandardParse(f) == Tunnel(c.teidOut, Be32(inner, 16), Be32(inner, 12), 40)
            && Parse(f) != StandardParse(f)
  {
    hide Parse, GtpuAt, Stale, HasOptions, EFlag, StandardParse, WalkLimited;
    StaleFields(c, inner);
    TunnelMeetsStandardIff(Stale(c, inner));
  }

  /** If the packet is too short to pass for an extension header, the frame is dropped as broken. */
  lemma StaleNextTypeDropped(c: Rules.Config, inner: seq<byte>)
    requires 20 <= |inner| < (inner[0] as int) * 4 && inner[0] / 16 == 4
    ensures var f := Stale(c, inner);
            && StandardParse(f) == Tunnel(c.teidOut, Be32(inner, 16), Be32(inner, 12), 40)
            && Parse(f) == Bad
  {
    hide Parse, GtpuAt, Stale, StandardParse;
    StaleFields(c, inner);
  }

  /**
   Otherwise the walk goes through the subscriber's own bytes: a packet `shown` +
   `hidden`, cut where its first byte times four says, is served as `hidden`.
   */
  lemma StaleNextTypeServed(c: Rules.Config, shown: seq<byte>, hidden: seq<byte>)
    requires 0 < |shown| == (shown[0] as int) * 4 && shown[0] / 16 == 4 && shown[|shown| - 1] == 0
    requires |hidden| >= 20 && hidden[0] / 16 == 4
    ensures var f := Stale(c, shown + hidden);
            && StandardParse(f) == Tunnel(c.teidOut, Be32(shown, 16), Be32(shown, 12), 40)
            && Parse(f) == Tunnel(c.teidOut, Be32(hidden, 16), Be32(hidden, 12), 40 + |shown|)
  {
    hide Parse, GtpuAt, Stale, StandardParse, WalkLimited;
    var inner := shown + hidden;
    assert inner[0] == shown[0];
    StaleFields(c, inner);
    var f := Stale(c, inner);
    Split(f, 54, shown, hidden);
    OneExtension(f, 54, PDU_SESSION_CONTAINER, 3);
    WalkEnds(f, 54 + |shown|, 54 + |shown|, 0, 3);
    Tunnel.Slice32(inner, 0, |shown|, 16);
    Tunnel.Slice32(inner, 0, |shown|, 12);
    assert inner[0..|shown|] == shown;
  }

  /** Where the bytes of two parts stand, and the 32-bit fields of the second. */
  lemma Split(f: seq<byte>, at: nat, x: seq<byte>, y: seq<byte>)
    requires at <= |f| && f[at..] == x + y && |x| > 0 && |y| >= 20
    ensures |f| == at + |x| + |y| && f[at + |x|..] == y
    ensures f[at] == x[0] && f[at + |x| - 1] == x[|x| - 1] && f[at + |x|] == y[0]
    ensures Be32(f, at + |x| + 16) == Be32(y, 16) && Be32(f, at + |x| + 12) == Be32(y, 12)
  {
    assert f[at..][|x|..] == y && f[at..][0] == x[0] && f[at..][|x| - 1] == x[|x| - 1];
    Tunnel.Slice32(f, at + |x|, |f|, 16);
    Tunnel.Slice32(f, at + |x|, |f|, 12);
  }

  /** An extension header that fits moves either walk on by its size. */
  lemma OneExtension(f: seq<byte>, at: nat, next: byte, limit: nat)
    requires at < |f| && next != 0 && 0 < f[at] && at + (f[at] as int) * 4 <= |f|
    ensures var to := at + (f[at] as int) * 4;
            && WalkChain(f, at, next) == WalkChain(f, to, f[to - 1])
            && WalkLimited(f, at, next, limit + 1) == WalkLimited(f, to, f[to - 1], limit)
  {
  }

  /** Either walk ends at type zero, the limited one also at its limit. */
  lemma WalkEnds(f: seq<byte>, x: nat, y: nat, next: byte, limit: nat)
    requires limit == 0 || next == 0
    ensures WalkLimited(f, x, next, limit) == Payload(x) && WalkChain(f, y, 0) == Payload(y)
  {
  }

  // ----- Five extension headers -----

  /** The optional fields and four extension headers of four bytes, announcing another one. */
  const FOUR_EXTENSIONS: seq<byte> :=
    [0, 0, 0, PDU_SESSION_CONTAINER,
     1, 0, 0, PDU_SESSION_CONTAINER, 1, 0, 0, PDU_SESSION_CONTAINER, 1, 0, 0, PDU_SESSION_CONTAINER,
     1, 0, 0, PDU_SESSION_CONTAINER]

  /** A well-formed last extension header. */
  predicate LastExtension(x: seq<byte>) {
    0 < |x| == (x[0] as int) * 4 && x[|x| - 1] == 0
  }

  /** A G-PDU with five extension headers in front of its packet. */
  function FiveExtensions(c: Rules.Config, fifth: seq<byte>, inner: seq<byte>): seq<byte> {
    Gpdu(c, 0x34, FOUR_EXTENSIONS, fifth + inner)
  }

  lemma FourBytes(f: seq<byte>, rest: seq<byte>)
    requires |f| >= 50 && f[50..] == FOUR_EXTENSIONS + rest
    ensures |f| == 70 + |rest| && f[70..] == rest && f[53] == PDU_SESSION_CONTAINER
    ensures f[54] == f[58] == f[62] == f[66] == 1
    ensures f[57] == f[61] == f[65] == f[69] == PDU_SESSION_CONTAINER
  {
    var x, t := FOUR_EXTENSIONS, f[50..];
    assert t[20..] == rest && f[70..] == t[20..];
    assert f[53] == t[3] == x[3] && f[54] == t[4] == x[4] && f[57] == t[7] == x[7];
    assert f[58] == t[8] == x[8] && f[61] == t[11] == x[11] && f[62] == t[12] == x[12];
    assert f[65] == t[15] == x[15] && f[66] == t[16] == x[16] && f[69] == t[19] == x[19];
  }

  lemma FiveWalked(f: seq<byte>, fifth: seq<byte>, inner: seq<byte>)
    requires |f| >= 50 && f[50..] == FOUR_EXTENSIONS + (fifth + inner) && LastExtension(fifth) && |inner| >= 20
    ensures |f| == 70 + |fifth| + |inner| && f[53] == PDU_SESSION_CONTAINER && f[70..] == fifth + inner
    ensures WalkLimited(f, 54, PDU_SESSION_CONTAINER, MAX_EXTENSIONS) == Payload(70)
    ensures WalkChain(f, 54, PDU_SESSION_CONTAINER) == Payload(70 + |fifth|)
  {
    hide WalkLimited, WalkChain;
    FourBytes(f, fifth + inner);
    Split(f, 70, fifth, inner);
    OneExtension(f, 54, PDU_SESSION_CONTAINER, 3);
    OneExtension(f, 58, PDU_SESSION_CONTAINER, 2);
    OneExtension(f, 62, PDU_SESSION_CONTAINER, 1);
    OneExtension(f, 66, PDU_SESSION_CONTAINER, 0);
    OneExtension(f, 70, PDU_SESSION_CONTAINER, 0);
    WalkEnds(f, 70, 70 + |fifth|, PDU_SESSION_CONTAINER, 0);
  }

  lemma FiveRead(c: Rules.Config, fifth: seq<byte>, inner: seq<byte>)
    requires LastExtension(fifth) && |inner| >= 20 && inner[0] / 16 == 4
    ensures var f := FiveExtensions(c, fifth, inner);
            && |f| == 70 + |fifth| + |inner| && f[70..] == fifth + inner && f[70] == fifth[0]
            && StandardParse(f) == Tunnel(c.teidOut, Be32(inner, 16), Be32(inner, 12), 56 + |fifth|)
            && Parse(f) == ParseInner(f, c.teidOut, 70)
  {
    hide Parse, GtpuAt, Gpdu, WalkLimited, WalkChain;
    var f := FiveExtensions(c, fifth, inner);
    GpduFields(c, 0x34, FOUR_EXTENSIONS, fifth + inner);
    ParseIsGtpu(f);
    FiveWalked(f, fifth, inner);
    Split(f, 70, fifth, inner);
  }

  /**
   A G-PDU with five extension headers is by the standard a tunnel. If the fifth
   does not look like an IPv4 packet, the data plane leaves the frame to the kernel.
   */
  lemma FiveExtensionsMissed(c: Rules.Config, fifth: seq<byte>, inner: seq<byte>)
    requires LastExtension(fifth) && |inner| >= 20 && inner[0] / 16 == 4
    requires fifth[0] / 16 != 4
    ensures var f := FiveExtensions(c, fifth, inner);
            && StandardParse(f) == Tunnel(c.teidOut, Be32(inner, 16), Be32(inner, 12), 56 + |fifth|)
            && Parse(f) == Stack
  {
    hide Parse, StandardParse, FiveExtensions;
    FiveRead(c, fifth, inner);
  }

  /**
   If it does - its length byte is 0x40 to 0x4f - the data plane takes the fifth
   header for the packet: its bytes are read as addresses, and decapsulation stops
   in front of it.
   */
  lemma FifthHeaderServed(c: Rules.Config, fifth: seq<byte>, inner: seq<byte>)
    requires LastExtension(fifth) && |inner| >= 20 && inner[0] / 16 == 4
    requires fifth[0] / 16 == 4
    ensures var f := FiveExtensions(c, fifth, inner);
            && StandardParse(f) == Tunnel(c.teidOut, Be32(inner, 16), Be32(inner, 12), 56 + |fifth|)
            && Parse(f) == Tunnel(c.teidOut, Be32(fifth, 16), Be32(fifth, 12), 56)
  {
    hide Parse, StandardParse, FiveExtensions;
    FiveRead(c, fifth, inner);
    var f := FiveExtensions(c, fifth, inner);
    assert f[70..][..|fifth|] == fifth;
    assert f[70..70 + |fifth|] == fifth;
    Tunnel.Slice32(f, 70, 70 + |fifth|, 16);
    Tunnel.Slice32(f, 70, 70 + |fifth|, 12);
  }

  /** Decapsulation cuts in front of the fifth header, or behind it, as it is told. */
  lemma FifthHeaderCut(c: Rules.Config, rule: Rules.Config, fifth: seq<byte>, inner: seq<byte>)
    requires LastExtension(fifth) && |inner| >= 20 && inner[0] / 16 == 4 && fifth[0] / 16 == 4
    ensures var f := FiveExtensions(c, fifth, inner);
            && Decap(rule, f, 56) == Some(EthHeader(rule) + (fifth + inner))
            && Decap(rule, f, 56 + |fifth|) == Some(EthHeader(rule) + inner)
  {
    hide Parse, StandardParse, FiveExtensions, EthHeader, IsIpv4;
    var f := FiveExtensions(c, fifth, inner);
    FiveRead(c, fifth, inner);
    assert f[70 + |fifth|..] == inner by {
      Split(f, 70, fifth, inner);
    }
    Headed(rule, fifth + inner);
    Headed(rule, inner);
  }

  lemma Headed(c: Rules.Config, packet: seq<byte>)
    requires |packet| >= 20 && packet[0] / 16 == 4
    ensures IsIpv4(EthHeader(c) + packet)
  {
    assert (EthHeader(c) + packet)[14] == packet[0];
  }

  /** A decap rule for such a tunnel sends the extension header out in front of the packet. */
  lemma FifthHeaderSent(c: Rules.Config, fifth: seq<byte>, inner: seq<byte>,
                        tx: set<u32>, t: Table, headroom: nat, now: u64)
    requires LastExtension(fifth) && |inner| >= 20 && inner[0] / 16 == 4 && fifth[0] / 16 == 4
    requires Teid(c.teidOut) in t && Decide(t, Teid(c.teidOut), now).verdict == Policy.Admit
    requires t[Teid(c.teidOut)].config.action == Rules.ACTION_DECAP && t[Teid(c.teidOut)].config.natIp == 0
    ensures var f, rule := FiveExtensions(c, fifth, inner), t[Teid(c.teidOut)].config;
            var r := Step(tx, t, Packet(f, headroom, now));
            && r.slot == Some(RedirectSlot)
            && r.frame == EthHeader(rule) + (fifth + inner)
            && StandardParse(f).Tunnel? && Decap(rule, f, StandardParse(f).strip) == Some(EthHeader(rule) + inner)
  {
    hide Parse, StandardParse, FiveExtensions, EthHeader, Policy.Enforce, Decap, Rewrite, Encap;
    FifthHeaderServed(c, fifth, inner);
    FifthHeaderCut(c, t[Teid(c.teidOut)].config, fifth, inner);
  }
}
