/**
 The commands that write rules and egress ports, and what any run of them, mixed
 with any traffic, guarantees to the data plane.
 */
module ControlPlane {
  import opened Bytes
  import opened Nat
  import opened Dataplane
  import Gtpu
  import Policy
  import Rules

  /** The size of the egress port table, which is indexed by interface number. */
  const MAX_IFINDEX: nat := 256

  datatype RuleError =
    | QuarantineNeedsDuration
    | NeedsOutIface
    | NeedsDMac
    | NeedsSMac
    | NeedsTeidOut
    | NeedsDstIp
    | NeedsSrcIp

  const ZERO_MAC: Mac := [0, 0, 0, 0, 0, 0]

  function ValidateRule(c: Rules.Config): Option<RuleError> {
    if c.limits.threshold != 0 && c.limits.seconds == 0 then Some(QuarantineNeedsDuration)
    else if c.action == Rules.ACTION_DROP then None
    else if c.outIfindex == 0 then Some(NeedsOutIface)
    else if c.dmac == ZERO_MAC then Some(NeedsDMac)
    else if c.smac == ZERO_MAC then Some(NeedsSMac)
    else if c.action == Rules.ACTION_ENCAP then
      if c.teidOut == 0 then Some(NeedsTeidOut)
      else if c.dstIp == 0 then Some(NeedsDstIp)
      else if c.srcIp == 0 then Some(NeedsSrcIp)
      else None
    else None
  }

  /** What validation demands of a rule, field by field. */
  predicate Usable(c: Rules.Config) {
    && c.limits.Valid()
    && (c.action != Rules.ACTION_DROP ==> c.outIfindex != 0 && c.dmac != ZERO_MAC && c.smac != ZERO_MAC)
    && (c.action == Rules.ACTION_ENCAP ==> c.teidOut != 0 && c.dstIp != 0 && c.srcIp != 0)
  }

  lemma ValidatedIffUsable(c: Rules.Config)
    ensures ValidateRule(c).None? <==> Usable(c)
  {
  }

  /** The maps both planes share. */
  datatype System = System(rules: Table, txPort: set<u32>)

  datatype Command =
    | Load(ifaces: seq<u32>)
    | AddTeid(teid: u32, config: Rules.Config)
    | AddNat(natIp: u32, ueIp: u32, tunnel: Rules.Config)
    | AddUeip(ip: u32, config: Rules.Config)
    | DashboardPut(key: Key, config: Rules.Config)
    | Delete(key: Key)

  /** A map value as the control plane writes it: counters and policy state zero. */
  function Written(c: Rules.Config): Rule {
    Rule(c, Policy.FRESH, 0, 0)
  }

  /** The rule of add-nat: an encapsulation without limits whose NAT field holds the subscriber's address. */
  function NatRule(ueIp: u32, tunnel: Rules.Config): Rules.Config {
    tunnel.(action := Rules.ACTION_ENCAP, natIp := ueIp, limits := Policy.Config(0, 0, 0))
  }

  datatype Outcome = Outcome(system: System, ok: bool)

  /** Makes an interface a redirect target; numbers beyond the table are refused. */
  function Ensure(s: System, ifindex: u32): Outcome {
    if ifindex >= MAX_IFINDEX then Outcome(s, false)
    else Outcome(s.(txPort := s.txPort + {ifindex}), true)
  }

  function EnsureTxPort(s: System, ifindex: u32): Outcome {
    if ifindex == 0 then Outcome(s, true) else Ensure(s, ifindex)
  }

  /** Validate, write the rule, then provision its port: a failing last step leaves the rule written. */
  function PutAndProvision(s: System, k: Key, c: Rules.Config): Outcome {
    if ValidateRule(c).Some? then Outcome(s, false)
    else EnsureTxPort(s.(rules := s.rules[k := Written(c)]), c.outIfindex)
  }

  /** Validate and write the rule, without looking at its port. */
  function PutOnly(s: System, k: Key, c: Rules.Config): Outcome {
    if ValidateRule(c).Some? then Outcome(s, false)
    else Outcome(s.(rules := s.rules[k := Written(c)]), true)
  }

  function EnsureAll(s: System, ifaces: seq<u32>): Outcome
    decreases |ifaces|
  {
    if ifaces == [] then Outcome(s, true)
    else
      var o := Ensure(s, ifaces[0]);
      if o.ok then EnsureAll(o.system, ifaces[1..]) else o
  }

  function Exec(s: System, c: Command): Outcome {
    match c
    case Load(ifaces) => EnsureAll(System(map[], {}), ifaces)
    case AddTeid(teid, config) => PutAndProvision(s, Teid(teid), config)
    case AddNat(natIp, ueIp, tunnel) => PutAndProvision(s, NatIp(natIp), NatRule(ueIp, tunnel))
    case AddUeip(ip, config) => PutOnly(s, UeIp(ip), config)
    case DashboardPut(key, config) => PutOnly(s, key, config)
    case Delete(key) => Outcome(s.(rules := s.rules - {key}), true)
  }

  // ----- Runs of commands and traffic -----

  /** Every rule that forwards has a nonzero egress interface that is a redirect target. */
  ghost predicate Provisioned(s: System) {
    forall k :: k in s.rules ==> PortReady(s, s.rules[k].config)
  }

  predicate PortReady(s: System, c: Rules.Config) {
    c.action != Rules.ACTION_DROP ==> c.outIfindex != 0 && c.outIfindex in s.txPort
  }

  /** Every rule in the maps passed validation. */
  ghost predicate AllUsable(s: System) {
    forall k :: k in s.rules ==> Usable(s.rules[k].config)
  }

  datatype Event = Operator(c: Command) | Traffic(p: Packet)

  function Advance(s: System, e: Event): System {
    match e
    case Operator(c) => Exec(s, c).system
    case Traffic(p) => s.(rules := Step(s.txPort, s.rules, p).table)
  }

  /** The system after the first `n` events from `s` on. */
  ghost function Evolve(s: System, es: seq<Event>, n: nat): System
    requires n <= |es|
  {
    if n == 0 then s else Advance(Evolve(s, es, n - 1), es[n - 1])
  }

  /** The system after the first `n` events since load. */
  ghost function SystemAfter(ifaces: seq<u32>, es: seq<Event>, n: nat): System
    requires n <= |es|
  {
    Evolve(Exec(System(map[], {}), Load(ifaces)).system, es, n)
  }

  /** What the program makes of packet `i`. */
  ghost function ResultAt(s: System, es: seq<Event>, i: nat): Result
    requires i < |es| && es[i].Traffic?
  {
    var u := Evolve(s, es, i);
    Step(u.txPort, u.rules, es[i].p)
  }

  /** The rule that decides about packet `i`, if any. */
  ghost function ChosenAt(s: System, es: seq<Event>, i: nat): Option<Key>
    requires i < |es| && es[i].Traffic?
  {
    Chosen(Evolve(s, es, i).rules, es[i].p)
  }

  /** The command is about the rule under `k`; a load is about all rules. */
  predicate About(c: Command, k: Key) {
    match c
    case Load(_) => true
    case AddTeid(teid, _) => k == Teid(teid)
    case AddNat(natIp, _, _) => k == NatIp(natIp)
    case AddUeip(ip, _) => k == UeIp(ip)
    case DashboardPut(key, _) => k == key
    case Delete(key) => k == key
  }

  /** None of the first `n` events is a command about the rule under `k`. */
  ghost predicate Undisturbed(es: seq<Event>, n: nat, k: Key)
    requires n <= |es|
  {
    forall i :: 0 <= i < n && es[i].Operator? ==> !About(es[i].c, k)
  }

  lemma UndisturbedBefore(es: seq<Event>, m: nat, n: nat, k: Key)
    requires m <= n <= |es| && Undisturbed(es, n, k)
    ensures Undisturbed(es, m, k)
  {
  }

  lemma OtherCommandKeepsRule(s: System, c: Command, k: Key)
    requires k in s.rules && !About(c, k)
    ensures k in Exec(s, c).system.rules && Exec(s, c).system.rules[k] == s.rules[k]
  {
    hide ValidateRule;
  }

  /** An undisturbed rule stays, with its configuration. */
  lemma {:induction false} RuleStays(s: System, es: seq<Event>, n: nat, k: Key)
    requires n <= |es| && k in s.rules && Undisturbed(es, n, k)
    ensures k in Evolve(s, es, n).rules && Evolve(s, es, n).rules[k].config == s.rules[k].config
  {
    hide Exec, Step;
    if n > 0 {
      RuleStays(s, es, n - 1, k);
      var u := Evolve(s, es, n - 1);
      match es[n - 1] {
        case Operator(c) => OtherCommandKeepsRule(u, c, k);
        case Traffic(p) => StepFrame(u.txPort, u.rules, p);
      }
    }
  }

  /**
   The command does its job: it succeeds, and if it is one that does not
   provision ports itself, the port of its rule is ready.
   */
  predicate Careful(s: System, c: Command) {
    && Exec(s, c).ok
    && (c.AddUeip? || c.DashboardPut? ==> PortReady(s, c.config))
  }

  lemma {:induction false} EnsureAllKeepsRules(s: System, ifaces: seq<u32>)
    ensures EnsureAll(s, ifaces).system.rules == s.rules
    decreases |ifaces|
  {
    if ifaces != [] && Ensure(s, ifaces[0]).ok {
      EnsureAllKeepsRules(Ensure(s, ifaces[0]).system, ifaces[1..]);
    }
  }

  /** Whether writing rule `c` under `k` and ending in `t` keeps every port ready. */
  lemma WriteKeepsIff(s: System, k: Key, c: Rules.Config, t: System)
    requires Provisioned(s) && s.txPort <= t.txPort && t.rules == s.rules[k := Written(c)]
    ensures Provisioned(t) <==> PortReady(t, c)
  {
    assert k in t.rules && t.rules[k].config == c;
    forall j | j in t.rules && j != k
      ensures PortReady(t, t.rules[j].config)
    {
      assert j in s.rules && PortReady(s, s.rules[j].config);
    }
  }

  /**
   add-teid keeps all ports ready exactly when validation refuses the rule, the
   rule drops, its port fits the table, or the port was ready already. In the one
   remaining case the command reports an error but has written the rule.
   */
  lemma AddTeidKeepsIff(s: System, teid: u32, c: Rules.Config)
    requires Provisioned(s)
    ensures Provisioned(Exec(s, AddTeid(teid, c)).system)
        <==> !Usable(c) || c.action == Rules.ACTION_DROP || c.outIfindex < MAX_IFINDEX || c.outIfindex in s.txPort
  {
    ValidatedIffUsable(c);
    if Usable(c) {
      WriteKeepsIff(s, Teid(teid), c, Exec(s, AddTeid(teid, c)).system);
    }
  }

  /** The same for add-nat, whose rule always forwards. */
  lemma AddNatKeepsIff(s: System, natIp: u32, ueIp: u32, tunnel: Rules.Config)
    requires Provisioned(s)
    ensures Provisioned(Exec(s, AddNat(natIp, ueIp, tunnel)).system)
        <==> !Usable(NatRule(ueIp, tunnel)) || tunnel.outIfindex < MAX_IFINDEX || tunnel.outIfindex in s.txPort
  {
    var c := NatRule(ueIp, tunnel);
    ValidatedIffUsable(c);
    if Usable(c) {
      WriteKeepsIff(s, NatIp(natIp), c, Exec(s, AddNat(natIp, ueIp, tunnel)).system);
    }
  }

  /** add-ueip (and the dashboard) keep all ports ready only if the port was ready already. */
  lemma AddUeipKeepsIff(s: System, ip: u32, c: Rules.Config)
    requires Provisioned(s)
    ensures Provisioned(Exec(s, AddUeip(ip, c)).system) <==> !Usable(c) || PortReady(s, c)
  {
    ValidatedIffUsable(c);
    if Usable(c) {
      WriteKeepsIff(s, UeIp(ip), c, Exec(s, AddUeip(ip, c)).system);
    }
  }

  lemma CarefulKeepsProvisioned(s: System, c: Command)
    requires Provisioned(s) && Careful(s, c)
    ensures Provisioned(Exec(s, c).system)
  {
    match c {
      case Load(ifaces) => EnsureAllKeepsRules(System(map[], {}), ifaces);
      case AddTeid(teid, config) => AddTeidKeepsIff(s, teid, config);
      case AddNat(natIp, ueIp, tunnel) => AddNatKeepsIff(s, natIp, ueIp, tunnel);
      case AddUeip(ip, config) => AddUeipKeepsIff(s, ip, config);
      case DashboardPut(key, config) =>
        ValidatedIffUsable(config);
        WriteKeepsIff(s, key, config, Exec(s, c).system);
      case Delete(key) =>
        forall k | k in Exec(s, c).system.rules
          ensures PortReady(Exec(s, c).system, Exec(s, c).system.rules[k].config)
        {
          assert k in s.rules;
        }
    }
  }

  lemma TrafficKeepsProvisioned(s: System, p: Packet)
    requires Provisioned(s)
    ensures Provisioned(Advance(s, Traffic(p)))
  {
    hide Step;
    StepFrame(s.txPort, s.rules, p);
    var t := Advance(s, Traffic(p));
    forall k | k in t.rules
      ensures PortReady(t, t.rules[k].config)
    {
      assert k in s.rules && PortReady(s, s.rules[k].config);
    }
  }

  /** A redirect misses the port table only for a forwarding rule whose port is not ready. */
  lemma MissNeedsUnreadyPort(s: System, p: Packet)
    requires Step(s.txPort, s.rules, p).verdict == Aborted
    ensures Chosen(s.rules, p).Some?
    ensures var k := Chosen(s.rules, p).value; k in s.rules && !PortReady(s, s.rules[k].config)
  {
    hide Gtpu.Parse, Policy.Enforce, Gtpu.Decap, Gtpu.Encap, Rewrite;
  }

  lemma {:induction false} StaysProvisioned(ifaces: seq<u32>, es: seq<Event>, n: nat)
    requires n <= |es|
    requires forall i :: 0 <= i < n && es[i].Operator? ==> Careful(SystemAfter(ifaces, es, i), es[i].c)
    ensures Provisioned(SystemAfter(ifaces, es, n))
  {
    hide Exec, Careful, Step;
    if n == 0 {
      LoadedEmpty(ifaces);
    } else {
      StaysProvisioned(ifaces, es, n - 1);
      var s := SystemAfter(ifaces, es, n - 1);
      match es[n - 1] {
        case Operator(c) => CarefulKeepsProvisioned(s, c);
        case Traffic(p) => TrafficKeepsProvisioned(s, p);
      }
    }
  }

  lemma LoadedEmpty(ifaces: seq<u32>)
    ensures Exec(System(map[], {}), Load(ifaces)).system.rules == map[]
  {
    EnsureAllKeepsRules(System(map[], {}), ifaces);
  }

  /**
   In any interleaving of commands and traffic since load, if every command
   succeeded and rules written without provisioning used a port that was ready,
   then every forwarding rule has a ready port and no packet's redirect fails.
   */
  lemma NoRedirectMiss(ifaces: seq<u32>, es: seq<Event>, n: nat)
    requires n < |es| && es[n].Traffic?
    requires forall i :: 0 <= i < n && es[i].Operator? ==> Careful(SystemAfter(ifaces, es, i), es[i].c)
    ensures var s := SystemAfter(ifaces, es, n);
            Provisioned(s) && Step(s.txPort, s.rules, es[n].p).verdict != Aborted
  {
    hide Step, Exec, Careful;
    StaysProvisioned(ifaces, es, n);
    var s := SystemAfter(ifaces, es, n);
    if Step(s.txPort, s.rules, es[n].p).verdict == Aborted {
      MissNeedsUnreadyPort(s, es[n].p);
    }
  }

  /** Whatever the operator does and whatever fails, only validated rules are ever in the maps. */
  lemma {:induction false} OnlyUsableRules(ifaces: seq<u32>, es: seq<Event>, n: nat)
    requires n <= |es|
    ensures AllUsable(SystemAfter(ifaces, es, n))
  {
    hide Exec, Step, Usable;
    if n == 0 {
      LoadedEmpty(ifaces);
    } else {
      OnlyUsableRules(ifaces, es, n - 1);
      var s := SystemAfter(ifaces, es, n - 1);
      match es[n - 1] {
        case Operator(c) => ExecKeepsUsable(s, c);
        case Traffic(p) => StepFrame(s.txPort, s.rules, p);
      }
    }
  }

  lemma ExecKeepsUsable(s: System, c: Command)
    requires AllUsable(s)
    ensures AllUsable(Exec(s, c).system)
  {
    hide Usable, ValidateRule;
    match c {
      case Load(ifaces) => EnsureAllKeepsRules(System(map[], {}), ifaces);
      case AddTeid(_, config) => ValidatedIffUsable(config);
      case AddNat(_, ueIp, tunnel) => ValidatedIffUsable(NatRule(ueIp, tunnel));
      case AddUeip(_, config) => ValidatedIffUsable(config);
      case DashboardPut(_, config) => ValidatedIffUsable(config);
      case Delete(_) =>
    }
  }

  /** Interface 300 does not fit the table: add-teid fails, yet the rule is in place without a port. */
  lemma FailedAddTeidLeavesRule(teid: u32, dmac: Mac, smac: Mac)
    requires dmac != ZERO_MAC && smac != ZERO_MAC
    ensures var c := Rules.Config(Rules.ACTION_REDIRECT, 300, dmac, smac, 0, 0, 0, 0, Policy.Config(0, 0, 0));
            var s := System(map[], {});
            var o := Exec(s, AddTeid(teid, c));
            !o.ok && Teid(teid) in o.system.rules && Provisioned(s) && !Provisioned(o.system)
  {
    var c := Rules.Config(Rules.ACTION_REDIRECT, 300, dmac, smac, 0, 0, 0, 0, Policy.Config(0, 0, 0));
    AddTeidKeepsIff(System(map[], {}), teid, c);
  }
}
