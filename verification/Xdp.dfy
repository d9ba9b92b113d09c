/**
 The packet buffer of one program invocation, and the operations that move its
 head and overwrite its bytes in place.
 */
module Xdp {
  import opened Bytes
  import opened Checksum
  import opened Nat
  import opened Gtpu
  import Rules

  class Context {
    const buf: array<byte>
    var data: nat
    var dataEnd: nat

    constructor (buf: array<byte>, data: nat, dataEnd: nat)
      requires data <= dataEnd <= buf.Length
      ensures Valid() && this.buf == buf && this.data == data && this.dataEnd == dataEnd
    {
      this.buf, this.data, this.dataEnd := buf, data, dataEnd;
    }

    ghost predicate Valid()
      reads this
    {
      data <= dataEnd <= buf.Length
    }

    /** The frame between the two pointers; what precedes it is headroom. */
    function Frame(): (f: seq<byte>)
      requires Valid()
      reads this, buf
      ensures |f| == dataEnd - data
    {
      buf[data..dataEnd]
    }

    function Len(): nat
      requires Valid()
      reads this
    {
      dataEnd - data
    }

    function Byte(o: nat): (b: byte)
      requires Valid() && data + o < dataEnd
      reads this, buf
      ensures b == Frame()[o]
    {
      buf[data + o]
    }

    function Word16(o: nat): (v: u16)
      requires Valid() && data + o + 2 <= dataEnd
      reads this, buf
      ensures v == Be16(Frame(), o)
    {
      (Byte(o) as int) * 0x100 + Byte(o + 1)
    }

    function Word32(o: nat): (v: u32)
      requires Valid() && data + o + 4 <= dataEnd
      reads this, buf
      ensures v == Be32(Frame(), o)
    {
      (Word16(o) as int) * 0x1_0000 + Word16(o + 2)
    }

    /** Moves the head of the packet; room for an Ethernet header must remain. */
    method AdjustHead(delta: int) returns (ok: bool)
      requires Valid()
      modifies this`data
      ensures Valid()
      ensures ok <==> 0 <= old(data) + delta && old(data) + delta + ETH_LEN <= dataEnd
      ensures data == if ok then old(data) + delta else old(data)
    {
      if data + delta < 0 || data + delta + ETH_LEN > dataEnd {
        return false;
      }
      data := data + delta;
      ok := true;
    }

    /** Overwrites the bytes from offset `o` on. */
    method Write(o: nat, s: seq<byte>)
      requires Valid() && data + o + |s| <= dataEnd
      modifies buf
      ensures Frame() == Patch(old(Frame()), o, s)
    {
      forall i | 0 <= i < |s| {
        buf[data + o + i] := s[i];
      }
      assert Frame() == Patch(old(Frame()), o, s);
    }

    /** Incremental checksum update of the field at `o`. */
    method UpdateChecksum(o: nat, oldVal: u32, newVal: u32)
      requires Valid() && data + o + 2 <= dataEnd
      modifies buf
      ensures Frame() == Put16(old(Frame()), o, Update(Be16(old(Frame()), o), oldVal, newVal))
    {
      hide Patch, Enc16;
      var check := Updated(Word16(o), oldVal, newVal);
      Write(o, Enc16(check));
    }

    /** Writes the new address and repairs the IPv4 header checksum. */
    method WriteAddress(side: Side, oldVal: u32, newVal: u32)
      requires Valid() && Len() >= ETH_LEN + 20
      modifies buf
      ensures Frame() == RewriteIp(side, old(Frame()), oldVal, newVal)
    {
      hide Patch, Put16, Update, Enc32;
      Write(side.Offset(), Enc32(newVal));
      assert Frame() == Put32(old(Frame()), side.Offset(), newVal);
      UpdateChecksum(IP_CHECK, oldVal, newVal);
    }

    /** Repairs a layer-4 checksum unless the stored one is zero. */
    method RepairChecksum(at: nat, oldVal: u32, newVal: u32)
      requires Valid() && data + at + 2 <= dataEnd
      modifies buf
      ensures Frame() == RepairL4(old(Frame()), at, oldVal, newVal)
    {
      hide Put16, Update;
      if Word16(at) != 0 {
        UpdateChecksum(at, oldVal, newVal);
      }
    }

    /** Replaces both Ethernet addresses. */
    method RewriteEth(c: Rules.Config)
      requires Valid() && Len() >= ETH_LEN
      modifies buf
      ensures Frame() == c.dmac + c.smac + old(Frame())[12..]
    {
      Write(0, c.dmac);
      Write(6, c.smac);
      assert Frame() == c.dmac + c.smac + old(Frame())[12..];
    }

    /** The rewrite of one address; on failure the packet is to be dropped. */
    method NatRewrite(side: Side, oldVal: u32, newVal: u32) returns (ok: bool)
      requires Valid()
      modifies buf
      ensures ok <==> Rewrite(side, old(Frame()), oldVal, newVal).Some?
      ensures ok ==> Frame() == Rewrite(side, old(Frame()), oldVal, newVal).value
    {
      hide RewriteIp, RepairL4, Put16, Update;
      if Len() < ETH_LEN + 20 || Byte(VERSION_IHL) / 16 != 4 {
        return false;
      }
      WriteAddress(side, oldVal, newVal);
      var ihl := (Byte(VERSION_IHL) % 16) * 4;
      if ihl < 20 {
        return false;
      }
      var l4 := ETH_LEN + ihl;
      if Byte(PROTOCOL) == TCP {
        if l4 + 20 > Len() {
          return false;
        }
        RepairChecksum(l4 + 16, oldVal, newVal);
      } else if Byte(PROTOCOL) == UDP {
        if l4 + 8 > Len() {
          return false;
        }
        RepairChecksum(l4 + 6, oldVal, newVal);
      }
      ok := true;
    }

    /** Follows the cursor from header to header, as far as the frame makes sense. */
    method ParseFrame() returns (p: Parsed)
      requires Valid()
      ensures p == Parse(Frame())
    {
      hide ParseGtpu, Frame;
      var cursor := ETH_LEN;
      if cursor > Len() {
        return Truncated;
      }
      if Word16(12) != 0x0800 {
        return Stack;
      }
      var iph := cursor;
      cursor := cursor + 20;
      if cursor > Len() {
        return Truncated;
      }
      if Byte(iph) / 16 != 4 || Byte(iph) % 16 < 5 {
        return Stack;
      }
      if Byte(iph + 9) != UDP {
        return Bare(Word32(iph + 16));
      }
      var ipLen := (Byte(iph) % 16) * 4;
      cursor := iph + ipLen;
      if cursor > Len() {
        return Stack;
      }
      var udph := cursor;
      cursor := cursor + 8;
      if cursor > Len() {
        return Truncated;
      }
      if Word16(udph + 2) != GTP_PORT {
        return Bare(Word32(iph + 16));
      }
      p := ParseTunnel(cursor, ipLen);
    }

    /** The GTP-U header at `gtph`, its extensions and the inner header. */
    method ParseTunnel(gtph: nat, ipLen: nat) returns (p: Parsed)
      requires Valid() && gtph == ETH_LEN + ipLen + 8
      ensures p == ParseGtpu(Frame(), gtph)
    {
      hide WalkLimited, Frame;
      var cursor := gtph + 8;
      if cursor > Len() {
        return Truncated;
      }
      if Byte(gtph) / 32 != 1 || Byte(gtph) / 16 % 2 == 0 || Byte(gtph + 1) != G_PDU {
        return Stack;
      }
      var teid := Word32(gtph + 4);
      var optSize := 0;
      if Byte(gtph) % 8 != 0 {
        cursor := cursor + 4;
        if cursor > Len() {
          return Truncated;
        }
        var ok, after, size := WalkExtensions(Frame(), cursor, Byte(gtph + 11));
        if !ok {
          return Bad;
        }
        cursor := after;
        optSize := 4 + size;
      }
      var inner := cursor;
      if inner + 20 > Len() {
        return Truncated;
      }
      if Byte(inner) / 16 != 4 {
        return Stack;
      }
      p := Tunnel(teid, Word32(inner + 16), Word32(inner + 12), ipLen + 8 + 8 + optSize);
    }

    /** Strips outer headers and writes a new Ethernet header. */
    method DecapGtpu(c: Rules.Config, strip: nat) returns (ok: bool)
      requires Valid()
      modifies this`data, buf
      ensures Valid()
      ensures ok <==> Decap(c, old(Frame()), strip).Some?
      ensures ok ==> Frame() == Decap(c, old(Frame()), strip).value
    {
      ghost var f := Frame();
      ok := AdjustHead(strip);
      if !ok {
        return;
      }
      assert Frame() == f[strip..];
      Write(0, EthHeader(c));
      assert Frame() == EthHeader(c) + f[strip + ETH_LEN..];
      ok := Len() >= ETH_LEN + 20 && Byte(VERSION_IHL) / 16 == 4;
    }

    /** Writes `s` right behind the headers `done` written so far over frame `f`. */
    method WriteNext(o: nat, s: seq<byte>, ghost done: seq<byte>, ghost f: seq<byte>)
      requires Valid() && data + o + |s| <= dataEnd
      requires |done| == o && |f| == Len() && Frame() == done + f[o..]
      modifies buf
      ensures Frame() == (done + s) + f[o + |s|..]
    {
      Write(o, s);
      PatchNext(done, f, s);
    }

    /** Writes the outer Ethernet and IPv4 headers over the first bytes of the frame. */
    method WriteEthIp(c: Rules.Config, tot: u16)
      requires Valid() && Len() >= 34
      modifies buf
      ensures Frame() == (EthHeader(c) + OuterIp(c, tot)) + old(Frame())[34..]
    {
      hide EthHeader, OuterIp, Patch;
      ghost var g := Frame();
      ghost var none: seq<byte> := [];
      assert Frame() == none + g[0..];
      WriteNext(0, EthHeader(c), none, g);
      assert none + EthHeader(c) == EthHeader(c);
      WriteNext(14, OuterIp(c, tot), EthHeader(c), g);
    }

    /** Writes the UDP and GTP-U headers behind `done`, the headers written so far over frame `f`. */
    method WriteUdpGtp(u: seq<byte>, t: seq<byte>, ghost done: seq<byte>, ghost f: seq<byte>)
      requires Valid() && |u| == |t| == 8 && |done| == 34 && |f| == Len() >= 50
      requires Frame() == done + f[34..]
      modifies buf
      ensures Frame() == (done + u + t) + f[50..]
    {
      hide Patch;
      WriteNext(34, u, done, f);
      WriteNext(42, t, done + u, f);
    }

    /** Writes the outer headers over the first bytes of the frame. */
    method WriteOuter(format: Format, c: Rules.Config, inner: u16)
      requires Valid() && Len() >= ETH_LEN + format.Overhead()
      modifies buf
      ensures Frame() == OuterHeaders(format, c, inner) + old(Frame())[ETH_LEN + format.Overhead()..]
    {
      hide EthHeader, OuterIp, UdpHeader, GtpHeader, NrOptions, Patch, Frame;
      ghost var g := Frame();
      var overhead := format.Overhead();
      var extra := overhead - PLAIN_OVERHEAD;
      var tot := (inner + overhead) % 0x1_0000;
      WriteEthIp(c, tot);
      ghost var done := EthHeader(c) + OuterIp(c, tot);
      var u := UdpHeader((inner + 16 + extra) % 0x1_0000);
      var t := GtpHeader(if format.Plain? then 0x30 else 0x34, (inner + extra) % 0x1_0000, c.teidOut);
      WriteUdpGtp(u, t, done, g);
      if format.Nr? {
        WriteNext(50, NrOptions(), done + u + t, g);
      } else {
        ghost var none: seq<byte> := [];
        assert done + u + t + none == done + u + t;
      }
    }

    /** Grows the packet at the front and writes the outer headers. */
    method EncapGtpu(format: Format, c: Rules.Config) returns (ok: bool)
      requires Valid()
      modifies this`data, buf
      ensures Valid()
      ensures ok <==> Encap(format, c, old(Frame()), old(data)).Some?
      ensures ok ==> Frame() == Encap(format, c, old(Frame()), old(data)).value
    {
      hide OuterHeaders;
      if Len() < ETH_LEN + 20 {
        return false;
      }
      ghost var f := Frame();
      var inner := Word16(TOT_LEN);
      var overhead := format.Overhead();
      ok := AdjustHead(-(overhead as int));
      if !ok {
        return;
      }
      ghost var g := Frame();
      assert g[overhead..] == f;
      WriteOuter(format, c, inner);
      assert g[ETH_LEN + overhead..] == f[ETH_LEN..];
    }
  }

  /** RFC 1624 equation 3, term by term, with two carries. */
  method Updated(check: u16, oldVal: u32, newVal: u32) returns (v: u16)
    ensures v == Update(check, oldVal, newVal)
  {
    var sum: nat := 0xffff - check;
    sum := sum + (0xffff - oldVal / 0x1_0000);
    sum := sum + (0xffff - oldVal % 0x1_0000);
    sum := sum + newVal / 0x1_0000;
    sum := sum + newVal % 0x1_0000;
    assert sum == Delta(check, oldVal, newVal);
    TwoCarries(sum);
    hide Delta, Fold, Carry;
    sum := AddCarry(sum);
    sum := AddCarry(sum);
    v := 0xffff - sum;
  }

  /** One end-around carry. */
  method AddCarry(sum: nat) returns (r: nat)
    ensures r == Carry(sum)
  {
    r := sum / 0x1_0000 + sum % 0x1_0000;
  }

  lemma PatchNext(done: seq<byte>, f: seq<byte>, s: seq<byte>)
    requires |done| + |s| <= |f|
    ensures Patch(done + f[|done|..], |done|, s) == (done + s) + f[|done| + |s|..]
  {
  }
}
