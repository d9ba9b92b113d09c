/** Validity of the packets the router sends, through recognition, NAT and tunnelling together. */
module EndToEnd {
  import opened Bytes
  import opened Checksum
  import opened Nat
  import opened Gtpu
  import opened Dataplane
  import Policy
  import Rules
  import Tunnel
  import Conservation

  /** Frames that agree behind the Ethernet header have the same IPv4 packet. */
  lemma SamePacket(f: seq<byte>, g: seq<byte>)
    requires |f| == |g| >= ETH_LEN && f[ETH_LEN..] == g[ETH_LEN..]
    ensures HeaderPresent(f) <==> HeaderPresent(g)
    ensures SegmentPresent(f) <==> SegmentPresent(g)
    ensures HeaderPresent(f) ==> HeaderSum(f) == HeaderSum(g)
    ensures SegmentPresent(f) ==>
              && SegmentSum(f) == SegmentSum(g) && L4Check(f) == L4Check(g) && f[PROTOCOL] == g[PROTOCOL]
              && Be16(f, L4Check(f).value) == Be16(g, L4Check(g).value)
  {
    hide WordSum;
    assert forall i :: ETH_LEN <= i < |f| ==> f[i] == f[ETH_LEN..][i - ETH_LEN] == g[i];
    if HeaderPresent(f) {
      assert f[ETH_LEN..ETH_LEN + HeaderLen(f)] == g[ETH_LEN..ETH_LEN + HeaderLen(g)];
    }
    if SegmentPresent(f) {
      assert f[SADDR..SADDR + 8] == g[SADDR..SADDR + 8];
      var lo := ETH_LEN + HeaderLen(f);
      assert f[lo..lo + SegmentLen(f)] == g[lo..lo + SegmentLen(g)];
    }
  }

  /** What happened to a packet on its way: nothing, or one address exchanged. */
  datatype Translation = Untouched | Exchanged(oldVal: u32, newVal: u32)

  /** Whether a receiver accepts the segment of `f` after that. */
  predicate AcceptedVia(f: seq<byte>, tr: Translation)
    requires SegmentPresent(f)
  {
    if tr.Untouched? then Accepted(f) else AcceptedAfter(f, tr.oldVal, tr.newVal)
  }

  /**
   Packet `g` is what packet `f` becomes: its header is valid if and only if it
   was, and its segment is accepted exactly when that could be told from `f`.
   */
  ghost predicate Relayed(f: seq<byte>, tr: Translation, g: seq<byte>) {
    && (HeaderPresent(f) ==> HeaderPresent(g) && (HeaderValid(g) <==> HeaderValid(f)))
    && (SegmentPresent(f) ==> SegmentPresent(g) && (Accepted(g) <==> AcceptedVia(f, tr)))
  }

  lemma RewriteRelays(side: Side, f: seq<byte>, newVal: u32)
    requires Rewritable(f)
    ensures var oldVal := Be32(f, side.Offset());
            var g := Rewrite(side, f, oldVal, newVal);
            g.Some? && Relayed(f, Exchanged(oldVal, newVal), g.value)
  {
    hide Rewrite, HeaderSum, SegmentPresent, Accepted, AcceptedAfter;
    RewriteEffect(side, f, Be32(f, side.Offset()), newVal);
    if HeaderPresent(f) {
      HeaderValidityKept(side, f, newVal);
    }
    if SegmentPresent(f) {
      AcceptedIff(side, f, newVal);
    }
  }

  /** The Ethernet header in front of a packet does not matter. */
  lemma SamePacketRelays(f: seq<byte>, g: seq<byte>, tr: Translation, h: seq<byte>)
    requires |f| == |g| >= ETH_LEN && f[ETH_LEN..] == g[ETH_LEN..]
    ensures Relayed(f, tr, h) <==> Relayed(g, tr, h)
    ensures Relayed(h, tr, f) <==> Relayed(h, tr, g)
    ensures Relayed(f, Untouched, g)
  {
    hide WordSum, Fold, HeaderPresent, SegmentPresent, SegmentSum, HeaderSum, L4Check;
    SamePacket(f, g);
  }

  lemma Reflexive(f: seq<byte>)
    ensures Relayed(f, Untouched, f)
  {
  }

  /**
   Uplink: a tunnelled packet that a decap rule sends out is what the packet inside
   the tunnel becomes - untouched, or with its source exchanged.
   */
  lemma UplinkRelays(c: Rules.Config, f: seq<byte>)
    requires Parse(f).Tunnel? && c.action == Rules.ACTION_DECAP
    ensures var p := Parse(f);
            var done := ActOnTunnel(c, f, p.innerSrc, p.strip);
            done.Sent? ==>
              p.strip <= |f|
              && Relayed(f[p.strip..], if c.natIp == 0 then Untouched else Exchanged(p.innerSrc, c.natIp), done.frame)
  {
    hide Parse, Decap, Rewrite, Relayed, Rewritable;
    TunnelInFrame(f);
    DecapSafe(c, f);
    var p := Parse(f);
    var g := Decap(c, f, p.strip).value;
    assert f[p.strip..][ETH_LEN..] == g[ETH_LEN..];
    RewriteEffect(Source, g, p.innerSrc, c.natIp);
    if c.natIp == 0 {
      SamePacketRelays(f[p.strip..], g, Untouched, g);
    } else if Rewritable(g) {
      RewriteRelays(Source, g, c.natIp);
      SamePacketRelays(f[p.strip..], g, Exchanged(p.innerSrc, c.natIp),
                       Rewrite(Source, g, p.innerSrc, c.natIp).value);
    }
  }

  /**
   Downlink: what leaves is recognised as a tunnel with a valid outer header; the
   packet inside is addressed to the subscriber and is what the received packet
   becomes - untouched, or with its destination exchanged.
   */
  lemma DownlinkRelays(k: Key, c: Rules.Config, f: seq<byte>, headroom: nat)
    requires Parse(f).Bare?
    ensures var dst := Parse(f).dst;
            var done := ActOnBare(k, c, f, dst, headroom);
            done.Sent? ==>
              var q := Parse(done.frame);
              && q.Tunnel? && q.teid == c.teidOut && q.strip <= |done.frame|
              && q.ueIp == (if k.NatIp? then c.natIp else dst)
              && HeaderPresent(done.frame) && HeaderValid(done.frame)
              && Relayed(f, if k.NatIp? then Exchanged(dst, c.natIp) else Untouched, done.frame[q.strip..])
  {
    hide Parse, Rewrite, Encap, Relayed, Rewritable, HeaderSum, Tunnel.Wrapped;
    Conservation.BareLength(f);
    var dst := Parse(f).dst;
    var inner := if k.NatIp? then Rewrite(Destination, f, dst, c.natIp) else Some(f);
    var tr := if k.NatIp? then Exchanged(dst, c.natIp) else Untouched;
    RewriteEffect(Destination, f, dst, c.natIp);
    if inner.Some? {
      var format := if k.NatIp? then Nr else Plain;
      var g := inner.value;
      assert IsIpv4(g) && Relayed(f, tr, g) && Be32(g, DADDR) == (if k.NatIp? then c.natIp else dst) by {
        if k.NatIp? {
          RewriteRelays(Destination, f, c.natIp);
          RewritableIsIpv4(g);
        } else {
          Reflexive(f);
        }
      }
      Tunnel.EncapIff(format, c, g, headroom);
      Tunnel.WrappedParses(format, c, g);
      Tunnel.OuterHeaderValid(format, c, g);
      Tunnel.InnerFields(format, c, g);
      var w := Tunnel.Wrapped(format, c, g);
      var x := w[format.Overhead()..];
      assert x[ETH_LEN..] == g[ETH_LEN..];
      SamePacketRelays(g, x, tr, f);
    }
  }

  lemma RewritableIsIpv4(f: seq<byte>)
    requires Rewritable(f)
    ensures IsIpv4(f)
  {
  }

  // ----- Where frames go -----

  /** A frame carries the addresses of rule `c` in its Ethernet header. */
  ghost predicate Addressed(c: Rules.Config, f: seq<byte>) {
    |f| >= ETH_LEN && f[..6] == c.dmac && f[6..12] == c.smac
  }

  lemma RewriteKeepsMacs(side: Side, f: seq<byte>, oldVal: u32, newVal: u32, c: Rules.Config)
    requires Rewritable(f) && Addressed(c, f)
    ensures Rewrite(side, f, oldVal, newVal).Some? && Addressed(c, Rewrite(side, f, oldVal, newVal).value)
  {
    hide Rewrite;
    RewriteEffect(side, f, oldVal, newVal);
    var g := Rewrite(side, f, oldVal, newVal).value;
    assert g[..6] == f[..6] && g[6..12] == f[6..12];
  }

  lemma SentTunnelAddressed(c: Rules.Config, f: seq<byte>)
    requires Parse(f).Tunnel?
    ensures var done := ActOnTunnel(c, f, Parse(f).innerSrc, Parse(f).strip);
            done.Sent? ==> Addressed(c, done.frame)
  {
    hide Parse, Decap, Rewrite, Rewritable;
    TunnelInFrame(f);
    DecapSafe(c, f);
    var p := Parse(f);
    var g := Decap(c, f, p.strip).value;
    RewriteEffect(Source, g, p.innerSrc, c.natIp);
    if Rewritable(g) {
      RewriteKeepsMacs(Source, g, p.innerSrc, c.natIp, c);
    }
  }

  lemma SentBareAddressed(k: Key, c: Rules.Config, f: seq<byte>, headroom: nat)
    requires Parse(f).Bare?
    ensures var done := ActOnBare(k, c, f, Parse(f).dst, headroom);
            done.Sent? ==> Addressed(c, done.frame)
  {
    hide Parse, Rewrite, Encap, Tunnel.Wrapped;
    var inner := if k.NatIp? then Rewrite(Destination, f, Parse(f).dst, c.natIp) else Some(f);
    if inner.Some? {
      var format := if k.NatIp? then Nr else Plain;
      Tunnel.EncapIff(format, c, inner.value, headroom);
      if |inner.value| >= 34 {
        Tunnel.OuterIpFields(format, c, inner.value);
      }
    }
  }

  lemma SentAddressed(k: Key, c: Rules.Config, p: Packet)
    ensures Act(k, c, p).Sent? ==> Addressed(c, Act(k, c, p).frame)
  {
    hide Parse, ActOnTunnel, ActOnBare;
    if Parse(p.frame).Tunnel? {
      SentTunnelAddressed(c, p.frame);
    } else if Parse(p.frame).Bare? {
      SentBareAddressed(k, c, p.frame, p.headroom);
    }
  }

  /**
   A frame left to the kernel is untouched; a frame that is sent has been admitted
   by the rule that decides about it, carries that rule's MAC addresses, and goes
   out of that rule's interface or, if the interface is unknown, nowhere.
   */
  lemma FramesGoWhereRulesSay(tx: set<u32>, t: Table, p: Packet)
    ensures var r := Step(tx, t, p);
            && (r.verdict.Pass? ==> r.frame == p.frame)
            && (r.verdict.Redirect? || r.verdict.Aborted? ==>
                  && Chosen(t, p).Some? && Chosen(t, p).value in t
                  && var k := Chosen(t, p).value;
                     && Decide(t, k, p.now).verdict == Policy.Admit
                     && Addressed(t[k].config, r.frame)
                     && (if t[k].config.outIfindex in tx
                         then r.verdict == Redirect(t[k].config.outIfindex) else r.verdict == Aborted))
  {
    hide Parse, Act, Policy.Enforce, Addressed;
    if Chosen(t, p).Some? {
      var k := Chosen(t, p).value;
      SelectSame(t, t, Parse(p.frame));
      SentAddressed(k, t[k].config, p);
    }
  }
}
