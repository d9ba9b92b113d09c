/**
 The two directions of the 1:1 NAT together: a subscriber's packet goes out under
 its NAT address, and a reply to that address comes back into a tunnel.
 */
module Reply {
  import opened Bytes
  import opened Nat
  import opened Gtpu
  import opened Dataplane
  import opened ControlPlane
  import Policy
  import Rules
  import Conservation
  import Isolation
  import EndToEnd

  /** A rule without a cap, as add-nat writes it, never gets past its first state. */
  lemma {:induction false} UnlimitedStaysFresh(r: Policy.Run, n: nat)
    requires r.start == Policy.FRESH && r.c.ratePps == 0 && n <= |r.ts|
    ensures r.At(n) == Policy.FRESH
  {
    if n > 0 {
      UnlimitedStaysFresh(r, n - 1);
    }
  }

  /** Packet `i` is sent uplink under the address `natIp`, whichever rule of the tunnel path decides. */
  ghost predicate SentUplink(s: System, es: seq<Event>, i: nat, natIp: u32)
    requires i < |es|
  {
    && es[i].Traffic? && Parse(es[i].p.frame).Tunnel?
    && ResultAt(s, es, i).slot == Some(RedirectSlot)
    && var t := Evolve(s, es, i).rules;
       var k := Chosen(t, es[i].p);
       && k.Some? && k.value in t
       && t[k.value].config.action == Rules.ACTION_DECAP && t[k.value].config.natIp == natIp != 0
  }

  lemma UplinkSource(tx: set<u32>, t: Table, k: Key, p: Packet)
    requires Parse(p.frame).Tunnel? && k in t && Chosen(t, p) == Some(k)
    requires t[k].config.action == Rules.ACTION_DECAP && t[k].config.natIp != 0
    requires Step(tx, t, p).slot == Some(RedirectSlot)
    ensures |Step(tx, t, p).frame| >= 34 && Be32(Step(tx, t, p).frame, SADDR) == t[k].config.natIp
  {
    hide Parse, Policy.Enforce, Decap, Rewrite, Rewritable;
    var c, q := t[k].config, Parse(p.frame);
    DecapSafe(c, p.frame);
    var g := Decap(c, p.frame, q.strip).value;
    RewriteEffect(Source, g, q.innerSrc, c.natIp);
  }

  /** What a nat_map rule makes of a packet to its address that its policy admits. */
  lemma NatRuleReplies(tx: set<u32>, t: Table, ip: u32, p: Packet)
    requires Parse(p.frame) == Bare(ip) && NatIp(ip) in t && t[NatIp(ip)].config.action == Rules.ACTION_ENCAP
    requires Decide(t, NatIp(ip), p.now).verdict == Policy.Admit
    ensures var r, c := Step(tx, t, p), t[NatIp(ip)].config;
            && (r.slot == Some(RedirectSlot) <==> Rewritable(p.frame) && p.headroom >= NR_OVERHEAD)
            && (r.slot == Some(RedirectSlot) ==>
                  var q := Parse(r.frame); q.Tunnel? && q.teid == c.teidOut && q.ueIp == c.natIp)
  {
    hide Parse, Policy.Enforce, ActOnBare, Rewritable, EndToEnd.Relayed;
    var c := t[NatIp(ip)].config;
    Conservation.BareActionFails(NatIp(ip), c, p.frame, p.headroom);
    EndToEnd.DownlinkRelays(NatIp(ip), c, p.frame, p.headroom);
  }

  /** Until a command is about it, the rule of an add-nat is in place and admits everything. */
  lemma NatRuleInForce(s: System, es: seq<Event>, n: nat, natIp: u32, ueIp: u32, tunnel: Rules.Config, now: u64)
    requires n <= |es| && Undisturbed(es, n, NatIp(natIp)) && NatIp(natIp) in s.rules
    requires s.rules[NatIp(natIp)] == Written(NatRule(ueIp, tunnel))
    ensures var t := Evolve(s, es, n).rules;
            && NatIp(natIp) in t && t[NatIp(natIp)].config == NatRule(ueIp, tunnel)
            && Decide(t, NatIp(natIp), now).verdict == Policy.Admit
  {
    hide Evolve;
    Isolation.StateIsolated(s, es, n, NatIp(natIp));
    var r := Isolation.Alone(s, es, n, NatIp(natIp));
    UnlimitedStaysFresh(r, |r.ts|);
  }

  /**
   While the rule of `add-nat natIp ueIp` is in force, a reply to any packet sent
   uplink under `natIp` is sent back exactly if its destination can be rewritten
   and there is room for the tunnel. It is addressed to `ueIp`, so it returns to
   the sender exactly if that is the address the sender used.
   */
  lemma ReplyReturnsIff(s: System, es: seq<Event>, i: nat, j: nat, natIp: u32, ueIp: u32, tunnel: Rules.Config)
    requires i < j < |es| && Undisturbed(es, j, NatIp(natIp)) && NatIp(natIp) in s.rules
    requires s.rules[NatIp(natIp)] == Written(NatRule(ueIp, tunnel))
    requires SentUplink(s, es, i, natIp)
    ensures |ResultAt(s, es, i).frame| >= 34
    ensures es[j].Traffic? && Parse(es[j].p.frame) == Bare(Be32(ResultAt(s, es, i).frame, SADDR)) ==>
              var sender, r := Parse(es[i].p.frame).innerSrc, ResultAt(s, es, j);
              && (r.slot == Some(RedirectSlot)
                  <==> Rewritable(es[j].p.frame) && es[j].p.headroom >= NR_OVERHEAD)
              && (r.slot == Some(RedirectSlot) ==>
                    var q := Parse(r.frame);
                    q.Tunnel? && q.teid == tunnel.teidOut && q.ueIp == ueIp && (q.ueIp == sender <==> sender == ueIp))
  {
    hide Parse, Step, Evolve, Rewritable;
    var t := Evolve(s, es, i);
    UplinkSource(t.txPort, t.rules, Chosen(t.rules, es[i].p).value, es[i].p);
    if es[j].Traffic? && Parse(es[j].p.frame) == Bare(natIp) {
      var u := Evolve(s, es, j);
      NatRuleInForce(s, es, j, natIp, ueIp, tunnel, es[j].p.now);
      NatRuleReplies(u.txPort, u.rules, natIp, es[j].p);
    }
  }
}
