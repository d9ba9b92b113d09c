/**
 Conservation of a rule's counters: what pkt_count, byte_count and
 rate_drop_count add up to over any run of the router.
 */
module Conservation {
  import opened Bytes
  import opened Nat
  import opened Gtpu
  import opened Dataplane
  import opened ControlPlane
  import Policy
  import Rules
  import Tunnel
  import Isolation

  /** How a packet ends for rule `k`. */
  datatype Fate =
    | NotMine          // another rule, or none, decided
    | OverCap          // dropped by the rate cap
    | InQuarantine     // blocked by quarantine
    | Completed        // admitted, and the action ran to its end
    | Unfinished       // admitted, but the action could not or does not finish here

  /**
   The admitted packets whose action does not complete, told from rule and frame:
   on the tunnel path an encap or unknown action, or NAT of an inner packet that
   cannot be rewritten; on the bare path an unrewritable packet under a nat_map
   rule, or too little room for the outer headers.
   */
  predicate CannotFinish(k: Key, c: Rules.Config, p: Packet)
    requires Parse(p.frame).Tunnel? || Parse(p.frame).Bare?
  {
    match Parse(p.frame)
    case Tunnel(_, _, _, strip) =>
      || c.action == Rules.ACTION_ENCAP
      || c.action > Rules.ACTION_REDIRECT
      || (c.action == Rules.ACTION_DECAP && c.natIp != 0 && strip <= |p.frame|
          && !InnerRewritable(p.frame, strip))
    case Bare(_) =>
      || (k.NatIp? && !Rewritable(p.frame))
      || p.headroom < (if k.NatIp? then NR_OVERHEAD else PLAIN_OVERHEAD)
  }

  /** The packet behind `strip` bytes of outer headers could have an address rewritten. */
  predicate InnerRewritable(f: seq<byte>, strip: nat)
    requires strip <= |f|
  {
    Rewritable(f[strip..])
  }

  ghost function FateOf(t: Table, k: Key, p: Packet): Fate
    requires k in t
  {
    if Chosen(t, p) != Some(k) then NotMine
    else match Decide(t, k, p.now).verdict
      case RateDrop => OverCap
      case Blocked => InQuarantine
      case Admit => if CannotFinish(k, t[k].config, p) then Unfinished else Completed
  }

  /** An Ethernet header does not matter for rewriting what follows it. */
  lemma RewritableBehind(f: seq<byte>, g: seq<byte>)
    requires |f| == |g| >= ETH_LEN && f[ETH_LEN..] == g[ETH_LEN..]
    ensures Rewritable(f) <==> Rewritable(g)
  {
    assert forall i :: ETH_LEN <= i < |f| ==> f[i] == f[ETH_LEN..][i - ETH_LEN] == g[i];
  }

  lemma TunnelActionFails(c: Rules.Config, f: seq<byte>)
    requires Parse(f).Tunnel?
    ensures var p := Parse(f);
            var done := ActOnTunnel(c, f, p.innerSrc, p.strip);
            && (done.Sent? || done.Discarded? <==>
                  !(|| c.action == Rules.ACTION_ENCAP || c.action > Rules.ACTION_REDIRECT
                    || (c.action == Rules.ACTION_DECAP && c.natIp != 0 && p.strip <= |f|
                        && !InnerRewritable(f, p.strip))))
  {
    hide Parse, Decap, Rewrite, Rewritable;
    DecapSafe(c, f);
    TunnelInFrame(f);
    var p := Parse(f);
    var g := Decap(c, f, p.strip).value;
    RewriteEffect(Source, g, p.innerSrc, c.natIp);
    assert g[ETH_LEN..] == f[p.strip..][ETH_LEN..];
    RewritableBehind(f[p.strip..], g);
  }

  lemma BareLength(f: seq<byte>)
    requires Parse(f).Bare?
    ensures IsIpv4(f) && HeaderLen(f) >= 20 && Parse(f).dst == Be32(f, DADDR)
  {
  }

  lemma BareActionFails(k: Key, c: Rules.Config, f: seq<byte>, headroom: nat)
    requires Parse(f).Bare?
    ensures var done := ActOnBare(k, c, f, Parse(f).dst, headroom);
            && (done.Sent? || done.Failed?)
            && (done.Failed? <==>
                  (k.NatIp? && !Rewritable(f)) || headroom < (if k.NatIp? then NR_OVERHEAD else PLAIN_OVERHEAD))
  {
    hide Parse, Rewrite, Rewritable, Encap;
    BareLength(f);
    RewriteEffect(Destination, f, Parse(f).dst, c.natIp);
    var inner := if k.NatIp? then Rewrite(Destination, f, Parse(f).dst, c.natIp) else Some(f);
    if inner.Some? {
      if k.NatIp? {
        assert |inner.value| == |f|;
      }
      Tunnel.EncapIff(if k.NatIp? then Nr else Plain, c, inner.value, headroom);
    }
  }

  /** The action completes exactly when nothing about rule and frame prevents it. */
  lemma ActionCompletesIff(k: Key, c: Rules.Config, p: Packet)
    requires Parse(p.frame).Tunnel? || Parse(p.frame).Bare?
    ensures var done := Act(k, c, p); done.Sent? || done.Discarded? <==> !CannotFinish(k, c, p)
  {
    hide Parse, ActOnTunnel, ActOnBare, Rewritable, InnerRewritable;
    if Parse(p.frame).Tunnel? {
      TunnelActionFails(c, p.frame);
    } else {
      BareActionFails(k, c, p.frame, p.headroom);
    }
  }

  lemma ChosenIsPacket(t: Table, p: Packet)
    requires Chosen(t, p).Some?
    ensures Parse(p.frame).Tunnel? || Parse(p.frame).Bare?
  {
    hide Parse;
  }

  /** What the packet of each fate adds to the counters of rule `k`. */
  lemma StepCounters(tx: set<u32>, t: Table, k: Key, p: Packet)
    requires k in t
    ensures var u, fate := Step(tx, t, p).table, FateOf(t, k, p);
            var bumped := fate != NotMine && fate != Unfinished;
            && k in u
            && u[k].pktCount == Wrap64(t[k].pktCount + if bumped then 1 else 0)
            && u[k].byteCount == Wrap64(t[k].byteCount + if bumped then |p.frame| else 0)
            && u[k].policy.rateDrops == Wrap64(t[k].policy.rateDrops + if fate == OverCap then 1 else 0)
  {
    hide Parse, Act, Policy.Enforce, CannotFinish;
    StepFrame(tx, t, p);
    if Chosen(t, p) == Some(k) {
      ChosenIsPacket(t, p);
      ActionCompletesIff(k, t[k].config, p);
      RateDropsCounted(t[k].config.limits, t[k].policy, p.now);
    }
  }

  /** The policy's own drop counter counts the drops of the cap. */
  lemma RateDropsCounted(c: Policy.Config, s: Policy.State, now: u64)
    ensures var d := Policy.Enforce(c, s, now);
            d.state.rateDrops == Wrap64(s.rateDrops + if d.verdict == Policy.RateDrop then 1 else 0)
  {
  }

  /** How event `i` ends for rule `k`; a command is no packet. */
  ghost function FateAt(s: System, es: seq<Event>, i: nat, k: Key): Fate
    requires i < |es| && k in s.rules && Undisturbed(es, i, k)
  {
    RuleStays(s, es, i, k);
    if es[i].Operator? then NotMine else FateOf(Evolve(s, es, i).rules, k, es[i].p)
  }

  /** How many of the packets among the first `n` events end with `fate` for rule `k`. */
  ghost function Count(s: System, es: seq<Event>, n: nat, k: Key, fate: Fate): nat
    requires n <= |es| && k in s.rules && Undisturbed(es, n, k)
  {
    if n == 0 then 0
    else Count(s, es, n - 1, k, fate) + if FateAt(s, es, n - 1, k) == fate then 1 else 0
  }

  /** Whether rule `k` must count event `i`, as 0 or 1. */
  ghost function CountsAt(s: System, es: seq<Event>, i: nat, k: Key): nat
    requires i < |es| && k in s.rules && Undisturbed(es, i, k)
  {
    if FateAt(s, es, i, k) == NotMine || FateAt(s, es, i, k) == Unfinished then 0 else 1
  }

  /** The bytes rule `k` must count for event `i`. */
  ghost function BytesAt(s: System, es: seq<Event>, i: nat, k: Key): nat
    requires i < |es| && k in s.rules && Undisturbed(es, i, k)
  {
    if CountsAt(s, es, i, k) == 0 || es[i].Operator? then 0 else |es[i].p.frame|
  }

  /** The bytes of the packets rule `k` must have counted. */
  ghost function CountedBytes(s: System, es: seq<Event>, n: nat, k: Key): nat
    requires n <= |es| && k in s.rules && Undisturbed(es, n, k)
  {
    if n == 0 then 0 else CountedBytes(s, es, n - 1, k) + BytesAt(s, es, n - 1, k)
  }

  /** How many packets rule `k` must have counted. */
  ghost function Counted(s: System, es: seq<Event>, n: nat, k: Key): nat
    requires n <= |es| && k in s.rules && Undisturbed(es, n, k)
  {
    Count(s, es, n, k, OverCap) + Count(s, es, n, k, InQuarantine) + Count(s, es, n, k, Completed)
  }

  /** What one event adds to the counters of rule `k`. */
  lemma EventCounters(s: System, es: seq<Event>, i: nat, k: Key)
    requires i < |es| && k in s.rules && Undisturbed(es, i + 1, k)
    ensures var t, u := Evolve(s, es, i).rules, Evolve(s, es, i + 1).rules;
            && k in t && k in u && Undisturbed(es, i, k)
            && u[k].pktCount == Wrap64(t[k].pktCount + CountsAt(s, es, i, k))
            && u[k].byteCount == Wrap64(t[k].byteCount + BytesAt(s, es, i, k))
            && u[k].policy.rateDrops
               == Wrap64(t[k].policy.rateDrops + if FateAt(s, es, i, k) == OverCap then 1 else 0)
  {
    hide Exec, Step, FateOf;
    RuleStays(s, es, i, k);
    var v := Evolve(s, es, i);
    match es[i] {
      case Operator(c) => OtherCommandKeepsRule(v, c, k);
      case Traffic(p) => StepCounters(v.txPort, v.rules, k, p);
    }
  }

  /** A 64-bit counter that showed `total` and advances by `d` shows `total + d`. */
  lemma CounterStep(before: u64, after: u64, total: nat, d: nat)
    requires before == Wrap64(total) && after == Wrap64(before + d)
    ensures after == Wrap64(total + d)
  {
    AddMod(total, d);
  }

  lemma CountStep(s: System, es: seq<Event>, n: nat, k: Key)
    requires 0 < n <= |es| && k in s.rules && Undisturbed(es, n, k)
    ensures Undisturbed(es, n - 1, k)
    ensures Counted(s, es, n, k) == Counted(s, es, n - 1, k) + CountsAt(s, es, n - 1, k)
    ensures CountedBytes(s, es, n, k) == CountedBytes(s, es, n - 1, k) + BytesAt(s, es, n - 1, k)
    ensures Count(s, es, n, k, OverCap)
            == Count(s, es, n - 1, k, OverCap) + if FateAt(s, es, n - 1, k) == OverCap then 1 else 0
  {
    hide FateAt;
  }

  lemma NothingCounted(s: System, es: seq<Event>, k: Key)
    requires k in s.rules && Undisturbed(es, 0, k)
    ensures Evolve(s, es, 0) == s && Wrap64(0) == 0
    ensures Counted(s, es, 0, k) == Count(s, es, 0, k, OverCap) == CountedBytes(s, es, 0, k) == 0
  {
  }

  /**
   From the moment a rule is written and until a command is about it again, and
   modulo 2^64: pkt_count = drops of the cap + quarantine blocks + completed actions,
   rate_drop_count = drops of the cap, byte_count = the bytes of counted packets.
   */
  lemma {:induction false} CountersConserved(s: System, es: seq<Event>, n: nat, k: Key)
    requires n <= |es| && k in s.rules && Undisturbed(es, n, k)
    requires s.rules[k].pktCount == 0 && s.rules[k].byteCount == 0 && s.rules[k].policy.rateDrops == 0
    ensures var u := Evolve(s, es, n).rules;
            && k in u
            && u[k].pktCount == Wrap64(Counted(s, es, n, k))
            && u[k].policy.rateDrops == Wrap64(Count(s, es, n, k, OverCap))
            && u[k].byteCount == Wrap64(CountedBytes(s, es, n, k))
  {
    hide Evolve, FateAt, Undisturbed, Count, Counted, CountedBytes, CountsAt, BytesAt, Wrap64;
    if n == 0 {
      NothingCounted(s, es, k);
    } else {
      UndisturbedBefore(es, n - 1, n, k);
      CountersConserved(s, es, n - 1, k);
      EventCounters(s, es, n - 1, k);
      CountStep(s, es, n, k);
      var t, u := Evolve(s, es, n - 1).rules[k], Evolve(s, es, n).rules[k];
      CounterStep(t.pktCount, u.pktCount, Counted(s, es, n - 1, k), CountsAt(s, es, n - 1, k));
      CounterStep(t.byteCount, u.byteCount, CountedBytes(s, es, n - 1, k), BytesAt(s, es, n - 1, k));
      CounterStep(t.policy.rateDrops, u.policy.rateDrops, Count(s, es, n - 1, k, OverCap),
                  if FateAt(s, es, n - 1, k) == OverCap then 1 else 0);
    }
  }

  lemma FateStep(s: System, es: seq<Event>, n: nat, k: Key, fate: Fate)
    requires 0 < n <= |es| && k in s.rules && Undisturbed(es, n, k)
    ensures Undisturbed(es, n - 1, k)
    ensures Count(s, es, n, k, fate) == Count(s, es, n - 1, k, fate) + if FateAt(s, es, n - 1, k) == fate then 1 else 0
  {
    hide FateAt;
  }

  lemma NothingSeen(s: System, es: seq<Event>, k: Key)
    requires k in s.rules && Undisturbed(es, 0, k)
    ensures Isolation.TimesOf(s, es, 0, k) == [] && forall fate :: Count(s, es, 0, k, fate) == 0
  {
  }

  lemma TimesStep(s: System, es: seq<Event>, n: nat, k: Key)
    requires 0 < n <= |es| && k in s.rules && Undisturbed(es, n - 1, k)
    ensures |Isolation.TimesOf(s, es, n, k)|
            == |Isolation.TimesOf(s, es, n - 1, k)| + if FateAt(s, es, n - 1, k) != NotMine then 1 else 0
  {
    hide FateAt, ChosenAt;
    FateCases(s, es, n - 1, k);
  }

  /** The packets a rule's policy saw exceed the counted ones by exactly the unfinished ones. */
  lemma {:induction false} ShortfallIsUnfinished(s: System, es: seq<Event>, n: nat, k: Key)
    requires n <= |es| && k in s.rules && Undisturbed(es, n, k)
    ensures |Isolation.TimesOf(s, es, n, k)| == Counted(s, es, n, k) + Count(s, es, n, k, Unfinished)
  {
    hide FateAt, Count, Undisturbed, Isolation.TimesOf;
    if n == 0 {
      NothingSeen(s, es, k);
    } else {
      UndisturbedBefore(es, n - 1, n, k);
      ShortfallIsUnfinished(s, es, n - 1, k);
      TimesStep(s, es, n, k);
      FateStep(s, es, n, k, OverCap);
      FateStep(s, es, n, k, InQuarantine);
      FateStep(s, es, n, k, Completed);
      FateStep(s, es, n, k, Unfinished);
    }
  }

  lemma FateCases(s: System, es: seq<Event>, i: nat, k: Key)
    requires i < |es| && k in s.rules && Undisturbed(es, i, k)
    ensures FateAt(s, es, i, k) != NotMine <==> Isolation.Own(s, es, i, k)
  {
    hide Parse, Policy.Enforce, CannotFinish, Select, Evolve;
    RuleStays(s, es, i, k);
  }
}
