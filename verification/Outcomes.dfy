/**
 What becomes of every packet: which rule decides about it, exactly when it is
 passed, dropped or sent, and what the frame that is sent contains.
 */
module Outcomes {
  import opened Bytes
  import opened Nat
  import opened Gtpu
  import opened Dataplane
  import Conservation
  import EndToEnd
  import Policy
  import Rules
  import Tunnel

  // ----- Which rule decides -----

  /** There is a rule under `k`, and it encapsulates. */
  predicate Encapsulates(t: Table, k: Key) {
    k in t && t[k].config.action == 2
  }

  /**
   Rule `k` decides about frame `f`. On tunnels the TEID comes before the address
   of the subscriber; without a tunnel only rules that encapsulate count, the NAT
   address before the subscriber's own.
   */
  predicate Claims(t: Table, f: seq<byte>, k: Key) {
    && k in t
    && match Parse(f)
       case Tunnel(teid, ueIp, _, _) => k == Teid(teid) || (k == UeIp(ueIp) && Teid(teid) !in t)
       case Bare(dst) =>
         && Encapsulates(t, k)
         && (k == NatIp(dst) || (k == UeIp(dst) && !Encapsulates(t, NatIp(dst))))
       case _ => false
  }

  /** No rule decides about frame `f`, though one could. */
  predicate Unclaimed(t: Table, f: seq<byte>) {
    match Parse(f)
    case Tunnel(teid, ueIp, _, _) => Teid(teid) !in t && UeIp(ueIp) !in t
    case Bare(dst) => !Encapsulates(t, NatIp(dst)) && !Encapsulates(t, UeIp(dst))
    case _ => false
  }

  /** The deciding rule, told from membership and actions. */
  lemma DecidesIff(t: Table, p: Packet, k: Key)
    ensures Chosen(t, p) == Some(k) <==> Claims(t, p.frame, k)
    ensures Chosen(t, p).None? <==> Unclaimed(t, p.frame) || !(Parse(p.frame).Tunnel? || Parse(p.frame).Bare?)
  {
    hide Parse;
  }

  // ----- Passed, dropped, sent -----

  predicate Admitted(t: Table, k: Key, now: u64)
    requires k in t
  {
    Decide(t, k, now).verdict == Policy.Admit
  }

  /** Rule `k` decides about the packet and its policy admits it. */
  predicate Served(t: Table, p: Packet, k: Key) {
    Claims(t, p.frame, k) && Admitted(t, k, p.now)
  }

  /** An admitted packet that the rule leaves to the kernel: a tunnel under an encap rule. */
  predicate LeftToKernel(k: Key, c: Rules.Config, p: Packet) {
    Parse(p.frame).Tunnel? && c.action == 2
  }

  /** An admitted packet that the rule drops: by its action, or because the action cannot be carried out. */
  predicate Dropped(k: Key, c: Rules.Config, p: Packet) {
    match Parse(p.frame)
    case Tunnel(_, _, _, strip) =>
      || c.action == 0 || c.action > 3
      || (c.action == 1 && c.natIp != 0 && strip <= |p.frame| && !Rewritable(p.frame[strip..]))
    case Bare(_) => if k.NatIp? then !Rewritable(p.frame) || p.headroom < 44 else p.headroom < 36
    case _ => false
  }

  lemma ActionOutcome(k: Key, c: Rules.Config, p: Packet)
    requires Parse(p.frame).Tunnel? || (Parse(p.frame).Bare? && c.action == 2)
    ensures Act(k, c, p).ToStack? <==> LeftToKernel(k, c, p)
    ensures Act(k, c, p).Discarded? || Act(k, c, p).Failed? <==> Dropped(k, c, p)
  {
    hide Parse, Decap, Rewrite, Encap, Rewritable;
    Conservation.ActionCompletesIff(k, c, p);
  }

  /**
   A packet is passed to the kernel exactly if it is nothing for the program, or no
   rule decides about it, or it is a tunnel admitted by a rule that encapsulates. It
   is then counted as passed and left as it came; without a deciding rule no rule
   changes either.
   */
  lemma PassIff(tx: set<u32>, t: Table, p: Packet)
    ensures var r := Step(tx, t, p);
            && (r.verdict == Pass
                <==> || Parse(p.frame) == Stack || Unclaimed(t, p.frame)
                     || exists k :: Served(t, p, k) && LeftToKernel(k, t[k].config, p))
            && (r.verdict == Pass ==> r.slot == Some(PassSlot) && r.frame == p.frame)
            && (Parse(p.frame) == Stack || Unclaimed(t, p.frame) ==> r == Result(Pass, Some(PassSlot), t, p.frame))
  {
    hide Parse, Act, Policy.Enforce;
    var o := Chosen(t, p);
    if o.Some? {
      DecidesIff(t, p, o.value);
      ActionOutcome(o.value, t[o.value].config, p);
    }
    forall k
      ensures Claims(t, p.frame, k) <==> o == Some(k)
    {
      DecidesIff(t, p, k);
    }
  }

  /**
   A packet is dropped exactly if it is cut short in a header, has a broken chain of
   extension headers, is refused by the policy of the deciding rule, or is admitted
   and dropped by that rule. All but the first kind are counted as dropped.
   */
  lemma DropIff(tx: set<u32>, t: Table, p: Packet)
    ensures var r := Step(tx, t, p);
            && (r.verdict == Drop
                <==> || Parse(p.frame) == Truncated || Parse(p.frame) == Bad
                     || exists k :: Claims(t, p.frame, k) && (Admitted(t, k, p.now) ==> Dropped(k, t[k].config, p)))
            && (r.verdict == Drop ==> r.slot == if Parse(p.frame) == Truncated then None else Some(DropSlot))
            && (Parse(p.frame) == Truncated || Parse(p.frame) == Bad ==> r.table == t)
  {
    hide Parse, Act, Policy.Enforce;
    var o := Chosen(t, p);
    if o.Some? {
      DecidesIff(t, p, o.value);
      ActionOutcome(o.value, t[o.value].config, p);
    }
    forall k
      ensures Claims(t, p.frame, k) <==> o == Some(k)
    {
      DecidesIff(t, p, k);
    }
  }

  /** Everything else that is admitted is sent, to the interface of the deciding rule if that is known. */
  lemma SentIff(tx: set<u32>, t: Table, p: Packet, k: Key)
    requires Claims(t, p.frame, k)
    ensures var r, c := Step(tx, t, p), t[k].config;
            && (r.slot == Some(RedirectSlot)
                <==> Admitted(t, k, p.now) && !LeftToKernel(k, c, p) && !Dropped(k, c, p))
            && (r.slot == Some(RedirectSlot) ==>
                  r.verdict == if c.outIfindex in tx then Redirect(c.outIfindex) else Aborted)
  {
    hide Parse, Act, Policy.Enforce;
    DecidesIff(t, p, k);
    ActionOutcome(k, t[k].config, p);
  }

  // ----- What a sent frame contains -----

  /** Rule `k` sends the packet. */
  predicate Sends(tx: set<u32>, t: Table, p: Packet, k: Key) {
    Claims(t, p.frame, k) && Step(tx, t, p).slot == Some(RedirectSlot)
  }

  /** A new Ethernet header: the addresses of the rule, and IPv4. */
  predicate Headed(c: Rules.Config, g: seq<byte>) {
    |g| >= 14 && g[..6] == c.dmac && g[6..12] == c.smac && g[12] == 0x08 && g[13] == 0x00
  }

  lemma SentIsAct(tx: set<u32>, t: Table, p: Packet, k: Key)
    requires Sends(tx, t, p, k)
    ensures Act(k, t[k].config, p) == Done.Sent(Step(tx, t, p).frame)
  {
    hide Parse, Act, Policy.Enforce;
    DecidesIff(t, p, k);
  }

  /** A redirect rule sends every tunnel it admits, and changes nothing but the Ethernet addresses. */
  lemma RedirectKeepsTunnel(tx: set<u32>, t: Table, p: Packet, k: Key)
    requires Served(t, p, k) && Parse(p.frame).Tunnel? && t[k].config.action == 3
    ensures var r, c := Step(tx, t, p), t[k].config;
            && r.slot == Some(RedirectSlot) && |r.frame| == |p.frame|
            && r.frame[..6] == c.dmac && r.frame[6..12] == c.smac && r.frame[12..] == p.frame[12..]
  {
    hide Parse, Policy.Enforce, Decap, Rewrite;
    SentIff(tx, t, p, k);
    SentIsAct(tx, t, p, k);
    TunnelInFrame(p.frame);
  }

  /**
   A decap rule sends the packet in the tunnel behind a new Ethernet header: as it
   is, or with the source exchanged and bytes changed at no other place than its
   address and checksums.
   */
  lemma DecapSendsInner(tx: set<u32>, t: Table, p: Packet, k: Key)
    requires Sends(tx, t, p, k) && Parse(p.frame).Tunnel? && t[k].config.action == 1
    ensures var g, c, strip := Step(tx, t, p).frame, t[k].config, Parse(p.frame).strip;
            && strip + 34 <= |p.frame| && |g| == |p.frame| - strip && Headed(c, g)
            && (if c.natIp == 0 then g[14..] == p.frame[14 + strip..]
                else Be32(g, 26) == c.natIp
                     && forall i :: 14 <= i < |g| && !Touched(Source, p.frame[strip..], i) ==>
                          g[i] == p.frame[i + strip])
  {
    hide Parse, Policy.Enforce, Decap, Rewrite, Touched;
    SentIsAct(tx, t, p, k);
    var c, q := t[k].config, Parse(p.frame);
    TunnelInFrame(p.frame);
    DecapSafe(c, p.frame);
    var d := Decap(c, p.frame, q.strip).value;
    if c.natIp != 0 {
      RewrittenInner(p.frame, q.strip, d, q.innerSrc, c.natIp);
    }
  }

  /** The rewrite of a packet whose Ethernet header is new. */
  lemma RewrittenInner(f: seq<byte>, strip: nat, d: seq<byte>, oldVal: u32, newVal: u32)
    requires strip + 34 <= |f| && |d| == |f| - strip && d[14..] == f[14 + strip..]
    requires Rewrite(Source, d, oldVal, newVal).Some?
    ensures var g := Rewrite(Source, d, oldVal, newVal).value;
            && |g| == |d| && g[..14] == d[..14] && Be32(g, 26) == newVal
            && g[..6] == d[..6] && g[6..12] == d[6..12] && g[12] == d[12] && g[13] == d[13]
            && forall i :: 14 <= i < |g| && !Touched(Source, f[strip..], i) ==> g[i] == f[i + strip]
  {
    hide Rewrite, Touched;
    RewriteEffect(Source, d, oldVal, newVal);
    InnerBytes(f, strip, d);
    RewriteKeepsEthernet(Source, d, oldVal, newVal);
    var g := Rewrite(Source, d, oldVal, newVal).value;
    assert g[..6] == g[..14][..6] && g[6..12] == g[..14][6..12] && g[12] == g[..14][12] && g[13] == g[..14][13];
    assert d[..6] == d[..14][..6] && d[6..12] == d[..14][6..12];
  }

  /** The packet behind the Ethernet header, byte by byte, and with it what a rewrite may touch. */
  lemma InnerBytes(f: seq<byte>, strip: nat, d: seq<byte>)
    requires strip + 34 <= |f| && |d| == |f| - strip && d[14..] == f[14 + strip..]
    ensures forall i :: 14 <= i < |d| ==> d[i] == f[i + strip]
    ensures forall side, i :: Touched(side, f[strip..], i) <==> Touched(side, d, i)
  {
    assert forall i :: 14 <= i < |d| ==> d[i] == d[14..][i - 14] == f[14 + strip..][i - 14] == f[i + strip];
    assert f[strip..][14] == d[14] && f[strip..][23] == d[23];
  }

  lemma RewriteKeepsEthernet(side: Side, f: seq<byte>, oldVal: u32, newVal: u32)
    requires Rewritable(f)
    ensures var g := Rewrite(side, f, oldVal, newVal);
            g.Some? && |g.value| == |f| && g.value[..14] == f[..14]
  {
    hide Rewrite;
    RewriteEffect(side, f, oldVal, newVal);
  }

  /** What a downlink rule puts around a packet of total length `tot`, byte field by byte field. */
  predicate Envelope(c: Rules.Config, fiveG: bool, tot: u16, g: seq<byte>) {
    var extra := if fiveG then 8 else 0;
    && Headed(c, g) && |g| >= 50 + extra
    && g[14] == 0x45 && Be16(g, 16) == (tot + 36 + extra) % 0x1_0000
    && g[22] == 64 && g[23] == 17
    && Be32(g, 26) == c.srcIp && Be32(g, 30) == c.dstIp
    && Be16(g, 34) == 2152 && Be16(g, 36) == 2152 && Be16(g, 38) == (tot + 16 + extra) % 0x1_0000
    && g[42] == (if fiveG then 0x34 else 0x30) && g[43] == 0xff
    && Be16(g, 44) == (tot + extra) % 0x1_0000 && Be32(g, 46) == c.teidOut
    && (fiveG ==> g[50..58] == [0, 0, 0, 0x85, 1, 0, 0, 0])
  }

  lemma WrappedEnvelope(format: Format, c: Rules.Config, f: seq<byte>)
    requires |f| >= 34
    ensures Envelope(c, format.Nr?, Be16(f, 16), Tunnel.Wrapped(format, c, f))
  {
    hide Tunnel.Wrapped;
    Tunnel.OuterIpFields(format, c, f);
    Tunnel.OuterGtpFields(format, c, f);
  }

  /**
   A rule of ueip_map sends a packet downlink in a plain envelope, unchanged behind
   its Ethernet header.
   */
  lemma PlainDownlink(tx: set<u32>, t: Table, p: Packet, k: Key)
    requires Sends(tx, t, p, k) && Parse(p.frame).Bare? && k.UeIp?
    ensures var f, g, c := p.frame, Step(tx, t, p).frame, t[k].config;
            |f| >= 34 && Envelope(c, false, Be16(f, 16), g) && g[50..] == f[14..]
  {
    hide Parse, Policy.Enforce, Encap, Tunnel.Wrapped, Envelope;
    SentIsAct(tx, t, p, k);
    Conservation.BareLength(p.frame);
    var c := t[k].config;
    Tunnel.EncapIff(Plain, c, p.frame, p.headroom);
    Tunnel.InnerFields(Plain, c, p.frame);
    WrappedEnvelope(Plain, c, p.frame);
  }

  /**
   A rule of nat_map sends it in a 5G envelope, with the destination exchanged and
   bytes changed at no other place than its address and checksums.
   */
  lemma NatDownlink(tx: set<u32>, t: Table, p: Packet, k: Key)
    requires Sends(tx, t, p, k) && Parse(p.frame).Bare? && k.NatIp?
    ensures var f, g, c := p.frame, Step(tx, t, p).frame, t[k].config;
            && |f| >= 34 && Envelope(c, true, Be16(f, 16), g) && |g| == |f| + 44
            && Be32(g, 44 + 30) == c.natIp
            && forall i :: 14 <= i < |f| && !Touched(Destination, f, i) ==> g[i + 44] == f[i]
  {
    hide Parse, Policy.Enforce, Encap, Rewrite, Rewritable, Tunnel.Wrapped, Envelope;
    SentIsAct(tx, t, p, k);
    Conservation.BareLength(p.frame);
    var f, c := p.frame, t[k].config;
    var dst := Parse(f).dst;
    RewriteEffect(Destination, f, dst, c.natIp);
    var h := Rewrite(Destination, f, dst, c.natIp).value;
    assert Be16(h, 16) == Be16(f, 16) by {
      assert Rewritable(f) && !Touched(Destination, f, 16) && !Touched(Destination, f, 17) by {
        NotTouched(f);
      }
    }
    Tunnel.EncapIff(Nr, c, h, p.headroom);
    Tunnel.InnerFields(Nr, c, h);
    WrappedEnvelope(Nr, c, h);
    var g := Tunnel.Wrapped(Nr, c, h);
    Shifted(g, h);
  }

  lemma Shifted(g: seq<byte>, h: seq<byte>)
    requires |g| == |h| + 44 && |h| >= 14 && g[58..] == h[14..]
    ensures forall i :: 14 <= i < |h| ==> g[i + 44] == h[i]
  {
    forall i | 14 <= i < |h|
      ensures g[i + 44] == h[i]
    {
      assert g[58..][i - 14] == h[14..][i - 14];
    }
  }

  /** A rewrite stays away from the total length. */
  lemma NotTouched(f: seq<byte>)
    requires Rewritable(f)
    ensures !Touched(Destination, f, 16) && !Touched(Destination, f, 17)
  {
  }

  /**
   The plain downlink as a whole: a packet without a tunnel whose destination has an
   encap rule in ueip_map, and none in nat_map, is sent exactly if that rule's policy
   admits it and there are 36 bytes of headroom; it leaves in that rule's tunnel.
   */
  lemma PlainDownlinkIff(tx: set<u32>, t: Table, p: Packet, dst: u32)
    requires Parse(p.frame) == Bare(dst)
    requires Encapsulates(t, UeIp(dst)) && !Encapsulates(t, NatIp(dst))
    ensures var r := Step(tx, t, p);
            && (r.slot == Some(RedirectSlot) <==> Admitted(t, UeIp(dst), p.now) && p.headroom >= 36)
            && (r.slot == Some(RedirectSlot) ==>
                  && |r.frame| == |p.frame| + 36
                  && Parse(r.frame) == Tunnel(t[UeIp(dst)].config.teidOut, dst, Be32(p.frame, 26), 36))
  {
    hide Parse, Policy.Enforce, Encap, Tunnel.Wrapped, Step;
    SentIff(tx, t, p, UeIp(dst));
    if Step(tx, t, p).slot == Some(RedirectSlot) {
      SentIsAct(tx, t, p, UeIp(dst));
      Conservation.BareLength(p.frame);
      Tunnel.EncapIff(Plain, t[UeIp(dst)].config, p.frame, p.headroom);
      Tunnel.WrappedParses(Plain, t[UeIp(dst)].config, p.frame);
    }
  }
}
