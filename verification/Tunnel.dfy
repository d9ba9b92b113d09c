/** What encapsulation produces, and that decapsulation undoes it. */
module Tunnel {
  import opened Bytes
  import opened Checksum
  import opened Nat
  import opened Gtpu
  import Rules

  /** The encapsulated frame, for frames with room in front of them. */
  function Wrapped(format: Format, c: Rules.Config, f: seq<byte>): (g: seq<byte>)
    requires |f| >= 34
    ensures |g| == |f| + format.Overhead()
  {
    OuterHeaders(format, c, Be16(f, TOT_LEN)) + f[ETH_LEN..]
  }

  /** Encapsulation fails only for lack of headroom (or of a fixed IPv4 header). */
  lemma EncapIff(format: Format, c: Rules.Config, f: seq<byte>, headroom: nat)
    ensures Encap(format, c, f, headroom).Some? <==> |f| >= 34 && headroom >= format.Overhead()
    ensures Encap(format, c, f, headroom).Some? ==> Encap(format, c, f, headroom).value == Wrapped(format, c, f)
  {
  }

  lemma Layout(format: Format, c: Rules.Config, f: seq<byte>)
    requires |f| >= 34
    ensures var g, ov := Wrapped(format, c, f), format.Overhead();
            var inner, extra := Be16(f, TOT_LEN), ov - PLAIN_OVERHEAD;
            && g[..14] == EthHeader(c)
            && g[14..34] == OuterIp(c, (inner + ov) % 0x1_0000)
            && g[34..42] == UdpHeader((inner + 16 + extra) % 0x1_0000)
            && g[42..50] == GtpHeader(if format.Plain? then 0x30 else 0x34, (inner + extra) % 0x1_0000, c.teidOut)
            && (format.Nr? ==> g[50..58] == NrOptions())
            && g[14 + ov..] == f[14..]
  {
    hide EthHeader, OuterIp, UdpHeader, GtpHeader, NrOptions;
    var g, ov := Wrapped(format, c, f), format.Overhead();
    var inner, extra := Be16(f, TOT_LEN), ov - PLAIN_OVERHEAD;
    var e, i := EthHeader(c), OuterIp(c, (inner + ov) % 0x1_0000);
    var u := UdpHeader((inner + 16 + extra) % 0x1_0000);
    var t := GtpHeader(if format.Plain? then 0x30 else 0x34, (inner + extra) % 0x1_0000, c.teidOut);
    var n := if format.Plain? then [] else NrOptions();
    assert g == e + i + u + t + n + f[14..];
    assert (e + i + u)[34..] == u;
    assert (e + i + u + t)[42..] == t;
    assert (e + i + u + t + n)[50..] == n;
  }

  lemma IpFields(c: Rules.Config, tot: u16)
    ensures var h := OuterIp(c, tot);
            && h[0] == 0x45 && h[9] == UDP
            && Be16(h, 2) == tot && Be16(h, 10) == OuterCheck(c, tot)
            && Be32(h, 12) == c.srcIp && Be32(h, 16) == c.dstIp
            && h[1] == h[4] == h[5] == h[6] == h[7] == 0 && h[8] == 64
  {
    hide OuterCheck;
    var h := OuterIp(c, tot);
    assert h[12..16] == Enc32(c.srcIp) && h[16..20] == Enc32(c.dstIp);
    Slice32(h, 12, 16, 0);
    Slice32(h, 16, 20, 0);
  }

  lemma Slice16(g: seq<byte>, lo: nat, hi: nat, o: nat)
    requires lo <= hi <= |g| && lo + o + 2 <= hi
    ensures Be16(g, lo + o) == Be16(g[lo..hi], o)
  {
  }

  lemma Slice32(g: seq<byte>, lo: nat, hi: nat, o: nat)
    requires lo <= hi <= |g| && lo + o + 4 <= hi
    ensures Be32(g, lo + o) == Be32(g[lo..hi], o)
  {
    Slice16(g, lo, hi, o);
    Slice16(g, lo, hi, o + 2);
  }

  lemma GtpFields(flags: byte, len: u16, teid: u32)
    ensures var h := GtpHeader(flags, len, teid);
            h[0] == flags && h[1] == G_PDU && Be16(h, 2) == len && Be32(h, 4) == teid
  {
    var h := GtpHeader(flags, len, teid);
    assert h[4..8] == Enc32(teid);
    Slice32(h, 4, 8, 0);
  }

  /** Every field of the outer Ethernet and IPv4 headers. */
  lemma OuterIpFields(format: Format, c: Rules.Config, f: seq<byte>)
    requires |f| >= 34
    ensures var g := Wrapped(format, c, f);
            && g[..6] == c.dmac && g[6..12] == c.smac && Be16(g, 12) == 0x0800
            && IsIpv4(g) && HeaderLen(g) == 20 && g[15] == 0
            && Be16(g, 16) == (Be16(f, 16) + if format.Plain? then 36 else 44) % 0x1_0000
            && Be32(g, 18) == 0 && g[22] == 64 && g[23] == 17
            && Be32(g, 26) == c.srcIp && Be32(g, 30) == c.dstIp
  {
    hide OuterIp, UdpHeader, GtpHeader, Wrapped;
    Layout(format, c, f);
    var g := Wrapped(format, c, f);
    var tot := (Be16(f, TOT_LEN) + format.Overhead()) % 0x1_0000;
    var h := g[14..34];
    IpFields(c, tot);
    Slice16(g, 14, 34, 2);
    Slice32(g, 14, 34, 12);
    Slice32(g, 14, 34, 16);
    assert g[14] == h[0] && g[15] == h[1] && g[18] == h[4] && g[19] == h[5];
    assert g[20] == h[6] && g[21] == h[7] && g[22] == h[8] && g[23] == h[9];
    var e := g[..14];
    assert e[..6] == c.dmac && e[6..12] == c.smac && e[12] == 8 && e[13] == 0;
    assert g[..6] == e[..6] && g[6..12] == e[6..12] && g[12] == e[12] && g[13] == e[13];
  }

  /** Every field of the UDP and GTP-U headers. */
  lemma OuterGtpFields(format: Format, c: Rules.Config, f: seq<byte>)
    requires |f| >= 34
    ensures var g := Wrapped(format, c, f);
            var inner, extra := Be16(f, 16), if format.Plain? then 0 else 8;
            && Be16(g, 34) == 2152 && Be16(g, 36) == 2152
            && Be16(g, 38) == (inner + 16 + extra) % 0x1_0000 && Be16(g, 40) == 0
            && g[42] == (if format.Plain? then 0x30 else 0x34) && g[43] == 0xff
            && Be16(g, 44) == (inner + extra) % 0x1_0000 && Be32(g, 46) == c.teidOut
            && (format.Nr? ==> g[50..58] == [0, 0, 0, 0x85, 1, 0, 0, 0])
  {
    hide OuterIp, EthHeader, GtpHeader, Wrapped;
    Layout(format, c, f);
    var g := Wrapped(format, c, f);
    var inner, extra := Be16(f, TOT_LEN), format.Overhead() - PLAIN_OVERHEAD;
    var u := g[34..42];
    Slice16(g, 34, 42, 0);
    Slice16(g, 34, 42, 2);
    Slice16(g, 34, 42, 4);
    Slice16(g, 34, 42, 6);
    GtpFields(if format.Plain? then 0x30 else 0x34, (inner + extra) % 0x1_0000, c.teidOut);
    Slice16(g, 42, 50, 2);
    Slice32(g, 42, 50, 4);
    assert g[42] == g[42..50][0] && g[43] == g[42..50][1];
  }

  // ----- Round trip -----

  /** The parser recognises what encapsulation builds, in either format. */
  lemma WrappedParses(format: Format, c: Rules.Config, f: seq<byte>)
    requires IsIpv4(f)
    ensures Parse(Wrapped(format, c, f)) == Tunnel(c.teidOut, Be32(f, DADDR), Be32(f, SADDR), format.Overhead())
  {
    hide Wrapped;
    OuterIpFields(format, c, f);
    OuterGtpFields(format, c, f);
    var g, ov := Wrapped(format, c, f), format.Overhead();
    InnerFields(format, c, f);
    assert Parse(g) == ParseGtpu(g, 42);
    if format.Nr? {
      var o := g[50..58];
      assert g[53] == o[3] && g[54] == o[4] && g[57] == o[7];
      assert WalkLimited(g, 54, PDU_SESSION_CONTAINER, MAX_EXTENSIONS) == Payload(58) by {
        assert ExtensionSize(g, 54) == Some(4);
        assert WalkLimited(g, 58, 0, 3) == Payload(58);
      }
    }
    assert ParseGtpu(g, 42) == ParseInner(g, c.teidOut, 14 + ov);
  }

  /** The inner packet starts right behind the outer headers. */
  lemma InnerFields(format: Format, c: Rules.Config, f: seq<byte>)
    requires |f| >= 34
    ensures var g, ov := Wrapped(format, c, f), format.Overhead();
            && g[14 + ov..] == f[14..] && g[14 + ov] == f[14]
            && Be32(g, ov + SADDR) == Be32(f, SADDR) && Be32(g, ov + DADDR) == Be32(f, DADDR)
  {
    hide Wrapped;
    Layout(format, c, f);
    var g, ov := Wrapped(format, c, f), format.Overhead();
    Slice32(g, 14 + ov, |g|, 12);
    Slice32(g, 14 + ov, |g|, 16);
    Slice32(f, 14, |f|, 12);
    Slice32(f, 14, |f|, 16);
    assert g[14 + ov] == g[14 + ov..][0] && f[14] == f[14..][0];
  }

  /**
   For every IPv4 frame the router encapsulates, in either format and under any
   two rules: the result is recognised as a G-PDU with the configured TEID, and
   decapsulating it returns the same bytes behind a fresh Ethernet header.
   */
  lemma EncapDecapRoundTrip(format: Format, c: Rules.Config, d: Rules.Config, f: seq<byte>, headroom: nat)
    requires IsIpv4(f) && headroom >= format.Overhead()
    ensures var g := Encap(format, c, f, headroom);
            && g.Some?
            && Parse(g.value) == Tunnel(c.teidOut, Be32(f, DADDR), Be32(f, SADDR), format.Overhead())
            && Decap(d, g.value, format.Overhead()) == Some(EthHeader(d) + f[ETH_LEN..])
  {
    hide Parse, EthHeader;
    EncapIff(format, c, f, headroom);
    WrappedParses(format, c, f);
    Layout(format, c, f);
    var h := EthHeader(d) + f[ETH_LEN..];
    assert h[14] == f[14];
  }

  // ----- Well-formed outer headers -----

  lemma OuterSum(c: Rules.Config, tot: u16)
    ensures WordSum(OuterIp(c, tot))
            == 0x4500 + tot + 0x4011 + OuterCheck(c, tot) + Halves(c.srcIp) + Halves(c.dstIp)
  {
    hide OuterCheck;
    var h := OuterIp(c, tot);
    var a, b, d := [0x45, 0] + Enc16(tot), [0, 0, 0, 0], [64, UDP] + Enc16(OuterCheck(c, tot));
    var s, t := Enc32(c.srcIp), Enc32(c.dstIp);
    assert h == a + (b + (d + (s + t)));
    WordSumConcat(a, b + (d + (s + t)));
    WordSumConcat(b, d + (s + t));
    WordSumConcat(d, s + t);
    WordSumConcat(s, t);
    WordSumOfTwo(a);
    WordSumOfTwo(b);
    WordSumOfTwo(d);
    WordSum32(s);
    WordSum32(t);
  }

  lemma WordSumOfTwo(s: seq<byte>)
    requires |s| == 4
    ensures WordSum(s) == Be16(s, 0) + Be16(s, 2)
  {
    var t := s[2..];
    assert t[2..] == [];
    assert WordSum(t) == Be16(t, 0) == Be16(s, 2);
  }

  /** A sum and its checksum, carried twice, add up to what a receiver accepts. */
  lemma CheckCompletes(words: nat)
    requires words <= 8 * 0xffff
    ensures Carry(Carry(words)) <= 0xffff && Valid(words + (0xffff - Carry(Carry(words))))
  {
    hide Fold, CastOut, Carry;
    TwoCarries(words);
    var k := CastOut(words);
    assert words + (0xffff - Fold(words)) == 0xffff * (k + 1);
    ValidIff(words + (0xffff - Fold(words)));
  }

  /** Every outer IPv4 header passes the receiver's checksum test, whatever the rule and the length. */
  lemma OuterHeaderValid(format: Format, c: Rules.Config, f: seq<byte>)
    requires |f| >= 34
    ensures var g := Wrapped(format, c, f); HeaderPresent(g) && HeaderValid(g)
  {
    hide Wrapped, OuterIp, WordSum, Valid, Carry;
    var g := Wrapped(format, c, f);
    var tot := (Be16(f, TOT_LEN) + format.Overhead()) % 0x1_0000;
    OuterIpFields(format, c, f);
    Layout(format, c, f);
    OuterSum(c, tot);
    var words := 0x4500 + tot + 0x4011 + Halves(c.srcIp) + Halves(c.dstIp);
    CheckCompletes(words);
  }

  /**
   The nested length fields agree - IPv4 with UDP, UDP with GTP-U, GTP-U with the
   inner packet - exactly when the outer length does not overflow 16 bits.
   */
  lemma OuterLengthsIff(format: Format, c: Rules.Config, f: seq<byte>)
    requires |f| >= 34
    ensures var g := Wrapped(format, c, f);
            (&& Be16(g, TOT_LEN) == 20 + Be16(g, 38)
             && Be16(g, 38) == 16 + Be16(g, 44)
             && Be16(g, 44) == Be16(f, TOT_LEN) + if format.Plain? then 0 else 8)
            <==> Be16(f, TOT_LEN) + format.Overhead() < 0x1_0000
  {
    hide Wrapped, IsIpv4, HeaderLen;
    OuterIpFields(format, c, f);
    OuterGtpFields(format, c, f);
    WrapArithmetic(Be16(f, TOT_LEN), if format.Plain? then 0 else 8);
  }

  lemma WrapArithmetic(inner: u16, extra: nat)
    requires extra == 0 || extra == 8
    ensures (&& (inner + 36 + extra) % 0x1_0000 == 20 + (inner + 16 + extra) % 0x1_0000
             && (inner + 16 + extra) % 0x1_0000 == 16 + (inner + extra) % 0x1_0000
             && (inner + extra) % 0x1_0000 == inner + extra)
            <==> inner + 36 + extra < 0x1_0000
  {
  }
}
