/** What passing validation is worth: for each map, which rules carry out their action. */
module Completion {
  import opened Bytes
  import opened Nat
  import opened Gtpu
  import opened Dataplane
  import opened ControlPlane
  import Policy
  import Rules
  import Tunnel
  import Conservation
  import Isolation

  /** The maps with a single rule in them. */
  function Only(k: Key, c: Rules.Config): Table {
    map[k := Written(c)]
  }

  /** The rule decides about the packet, which leaves room for either envelope. */
  predicate Decides(k: Key, c: Rules.Config, p: Packet) {
    Chosen(Only(k, c), p) == Some(k) && p.headroom >= NR_OVERHEAD
  }

  lemma DecidesOnFrames(k: Key, c: Rules.Config, p: Packet)
    requires Decides(k, c, p)
    ensures Parse(p.frame).Tunnel? || Parse(p.frame).Bare?
    ensures Parse(p.frame).Tunnel? ==> !k.NatIp?
    ensures Parse(p.frame).Bare? ==> !k.Teid? && c.action == Rules.ACTION_ENCAP
  {
    hide Parse;
  }

  /** Once admitted, every packet the rule decides about has its action carried out. */
  ghost predicate AlwaysCompletes(k: Key, c: Rules.Config) {
    forall p: Packet :: Decides(k, c, p) ==> Completes(k, c, p)
  }

  predicate Completes(k: Key, c: Rules.Config, p: Packet) {
    var done := Act(k, c, p); done.Sent? || done.Discarded?
  }

  // ----- Frames on which actions fail -----

  /** A tunnel to `teid` around a packet to `ip` whose IPv4 header length is zero. */
  function NoHeaderInside(ip: u32): (f: seq<byte>)
    ensures |f| == 34
  {
    seq(ETH_LEN, i => 0) + ([0x40] + seq(15, i => 0) + Enc32(ip))
  }

  function EnvelopeTo(teid: u32): Rules.Config {
    Rules.Config(Rules.ACTION_ENCAP, 1, ZERO_MAC, ZERO_MAC, teid, 0, 0, 0, Policy.Config(0, 0, 0))
  }

  function OddTunnel(teid: u32, ip: u32): (p: Packet)
    ensures p.headroom == NR_OVERHEAD
  {
    Packet(Tunnel.Wrapped(Plain, EnvelopeTo(teid), NoHeaderInside(ip)), NR_OVERHEAD, 0)
  }

  lemma NoHeaderFields(ip: u32)
    ensures var f := NoHeaderInside(ip);
            IsIpv4(f) && HeaderLen(f) == 0 && Be32(f, DADDR) == ip && !Rewritable(f)
  {
    var f := NoHeaderInside(ip);
    assert f[30..34] == Enc32(ip);
    Tunnel.Slice32(f, 30, 34, 0);
  }

  lemma OddTunnelFails(teid: u32, ip: u32, k: Key, c: Rules.Config)
    ensures var p := OddTunnel(teid, ip); var q := Parse(p.frame);
            && q.Tunnel? && q.teid == teid && q.ueIp == ip
            && (Completes(k, c, p) <==>
                  || c.action == Rules.ACTION_DROP || c.action == Rules.ACTION_REDIRECT
                  || (c.action == Rules.ACTION_DECAP && c.natIp == 0))
  {
    hide Parse, Tunnel.Wrapped, NoHeaderInside, Act, Rewritable;
    var f, e := NoHeaderInside(ip), EnvelopeTo(teid);
    NoHeaderFields(ip);
    Tunnel.WrappedParses(Plain, e, f);
    Tunnel.InnerFields(Plain, e, f);
    var g := Tunnel.Wrapped(Plain, e, f);
    assert g[PLAIN_OVERHEAD..][ETH_LEN..] == f[ETH_LEN..];
    Conservation.RewritableBehind(g[PLAIN_OVERHEAD..], f);
    Conservation.ActionCompletesIff(k, c, OddTunnel(teid, ip));
  }

  /** A TCP packet to `ip` cut off right behind its IPv4 header. */
  function CutOffTcp(ip: u32): (f: seq<byte>)
    ensures |f| == 34
  {
    (seq(12, i => 0) + [8, 0]) + ([0x45] + seq(8, i => 0) + [TCP] + seq(6, i => 0) + Enc32(ip))
  }

  lemma CutOffTcpFails(ip: u32, c: Rules.Config)
    ensures var p := Packet(CutOffTcp(ip), NR_OVERHEAD, 0);
            Parse(p.frame) == Bare(ip) && !Completes(NatIp(ip), c, p)
  {
    hide Act;
    var f := CutOffTcp(ip);
    var h := f[14..34];
    assert h[0] == 0x45 && h[9] == TCP && f[14] == h[0] && f[23] == h[9] && f[12] == 8 && f[13] == 0;
    assert f[30..34] == Enc32(ip);
    Tunnel.Slice32(f, 30, 34, 0);
    Conservation.ActionCompletesIff(NatIp(ip), c, Packet(f, NR_OVERHEAD, 0));
  }

  // ----- Which rules complete -----

  /** The actions that complete on every tunnelled frame. */
  predicate CompletesOnTunnels(c: Rules.Config) {
    || c.action == Rules.ACTION_DROP || c.action == Rules.ACTION_REDIRECT
    || (c.action == Rules.ACTION_DECAP && c.natIp == 0)
  }

  lemma TunnelActionsComplete(k: Key, c: Rules.Config, p: Packet)
    requires CompletesOnTunnels(c) && Parse(p.frame).Tunnel?
    ensures Completes(k, c, p)
  {
    hide Parse, Act;
    Conservation.ActionCompletesIff(k, c, p);
  }

  /**
   A rule in teid_map or ueip_map, validated or not, completes on every packet it decides
   about exactly when it drops, redirects, or decapsulates without NAT. An encap
   rule there is defeated by tunnelled packets, NAT by inner packets it cannot
   rewrite, an unknown action by everything. A rule in nat_map does so only if it
   never decides at all, because some packets to its address cannot be rewritten.
   */
  lemma AlwaysCompletesIff(k: Key, c: Rules.Config)
    ensures AlwaysCompletes(k, c)
        <==> if k.NatIp? then c.action != Rules.ACTION_ENCAP else CompletesOnTunnels(c)
  {
    hide Parse, Act, OddTunnel, CutOffTcp;
    match k {
      case Teid(teid) =>
        var p := OddTunnel(teid, 0);
        OddTunnelFails(teid, 0, k, c);
        assert Decides(k, c, p);
      case UeIp(ip) =>
        var p := OddTunnel(0, ip);
        OddTunnelFails(0, ip, k, c);
        assert Decides(k, c, p);
      case NatIp(ip) =>
        var p := Packet(CutOffTcp(ip), NR_OVERHEAD, 0);
        CutOffTcpFails(ip, c);
        assert c.action == Rules.ACTION_ENCAP ==> Decides(k, c, p);
    }
    forall p: Packet | Decides(k, c, p) && if k.NatIp? then c.action != Rules.ACTION_ENCAP else CompletesOnTunnels(c)
      ensures Completes(k, c, p)
    {
      DecidesOnFrames(k, c, p);
      if Parse(p.frame).Tunnel? {
        TunnelActionsComplete(k, c, p);
      }
    }
  }

  /** `add-teid --action encap` passes validation, writes the rule, and reports success. */
  lemma EncapTeidAccepted(s: System, teid: u32, c: Rules.Config)
    requires Usable(c) && c.action == Rules.ACTION_ENCAP && c.outIfindex < MAX_IFINDEX
    ensures var o := Exec(s, AddTeid(teid, c));
            o.ok && Teid(teid) in o.system.rules && o.system.rules[Teid(teid)] == Written(c)
  {
    ValidatedIffUsable(c);
  }

  /** An encap rule for a TEID completes nothing, so each packet it lets by goes to the kernel as it came. */
  lemma EncapTeidPacket(tx: set<u32>, t: Table, teid: u32, p: Packet)
    requires Teid(teid) in t && t[Teid(teid)].config.action == Rules.ACTION_ENCAP
    ensures Conservation.FateOf(t, Teid(teid), p) != Conservation.Completed
    ensures Chosen(t, p) == Some(Teid(teid)) ==> EncapTeidOutcome(t, teid, p, Step(tx, t, p))
  {
    hide Parse, Policy.Enforce, ActOnBare;
  }

  /** Left to the kernel unchanged if the policy admits it, and dropped otherwise; never redirected. */
  predicate EncapTeidOutcome(t: Table, teid: u32, p: Packet, r: Result)
    requires Teid(teid) in t
  {
    if Decide(t, Teid(teid), p.now).verdict == Policy.Admit
    then r.verdict == Pass && r.slot == Some(PassSlot) && r.frame == p.frame
    else r.verdict == Drop && r.slot == Some(DropSlot)
  }

  lemma {:induction false} NoneCompletes(s: System, es: seq<Event>, n: nat, teid: u32)
    requires n <= |es| && Teid(teid) in s.rules && Undisturbed(es, n, Teid(teid))
    requires s.rules[Teid(teid)].config.action == Rules.ACTION_ENCAP
    ensures Conservation.Count(s, es, n, Teid(teid), Conservation.Completed) == 0
  {
    hide Conservation.FateOf, Evolve;
    if n > 0 {
      NoneCompletes(s, es, n - 1, teid);
      RuleStays(s, es, n - 1, Teid(teid));
      if es[n - 1].Traffic? {
        var u := Evolve(s, es, n - 1);
        EncapTeidPacket(u.txPort, u.rules, teid, es[n - 1].p);
      }
    }
  }

  /**
   From the moment an encap rule is written for a TEID and until a command is about
   it again, nothing it decides about is ever sent: what its policy admits goes to
   the kernel unchanged and uncounted, so that pkt_count shows nothing but drops of
   the cap and quarantine blocks.
   */
  lemma EncapTeidForwardsNothing(s: System, es: seq<Event>, n: nat, teid: u32, c: Rules.Config)
    requires n <= |es| && Undisturbed(es, n, Teid(teid))
    requires Teid(teid) in s.rules && s.rules[Teid(teid)] == Written(c) && c.action == Rules.ACTION_ENCAP
    ensures var u := Evolve(s, es, n).rules;
            && Teid(teid) in u
            && u[Teid(teid)].pktCount
               == Wrap64(Conservation.Count(s, es, n, Teid(teid), Conservation.OverCap)
                         + Conservation.Count(s, es, n, Teid(teid), Conservation.InQuarantine))
    ensures forall i :: 0 <= i < n && Isolation.Own(s, es, i, Teid(teid)) ==>
              && Teid(teid) in Evolve(s, es, i).rules
              && EncapTeidOutcome(Evolve(s, es, i).rules, teid, es[i].p, ResultAt(s, es, i))
  {
    hide EncapTeidOutcome, Evolve, Conservation.Count, Conservation.CountedBytes, Wrap64;
    Conservation.CountersConserved(s, es, n, Teid(teid));
    NoneCompletes(s, es, n, teid);
    forall i | 0 <= i < n && Isolation.Own(s, es, i, Teid(teid))
      ensures Teid(teid) in Evolve(s, es, i).rules
      ensures EncapTeidOutcome(Evolve(s, es, i).rules, teid, es[i].p, ResultAt(s, es, i))
    {
      UndisturbedBefore(es, i, n, Teid(teid));
      RuleStays(s, es, i, Teid(teid));
      var u := Evolve(s, es, i);
      EncapTeidPacket(u.txPort, u.rules, teid, es[i].p);
    }
  }
}
