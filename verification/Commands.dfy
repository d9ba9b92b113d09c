/**
 What the commands leave in the maps: over any run, rules and egress ports are
 those that the commands say, whatever traffic there was in between.
 */
module Commands {
  import opened Bytes
  import opened Dataplane
  import opened ControlPlane
  import Policy
  import Rules

  /** A command that is to put `config` under `key`, and whether it also provisions its port. */
  datatype Write = NoWrite | Write(key: Key, config: Rules.Config, provisions: bool)

  /** add-nat spells out its rule: encapsulation, the subscriber's address, the given tunnel, no limits. */
  function WriteOf(c: Command): Write {
    match c
    case AddTeid(teid, config) => Write(Teid(teid), config, true)
    case AddNat(natIp, ueIp, t) =>
      Write(NatIp(natIp),
            Rules.Config(2, t.outIfindex, t.dmac, t.smac, t.teidOut, t.dstIp, t.srcIp, ueIp, Policy.Config(0, 0, 0)),
            true)
    case AddUeip(ip, config) => Write(UeIp(ip), config, false)
    case DashboardPut(key, config) => Write(key, config, false)
    case _ => NoWrite
  }

  // ----- One command -----

  /**
   A command that writes a rule does so exactly if the rule is usable: then exactly
   its configuration stands under exactly its key, with all counters and policy
   state zero, and every other rule is as before. It provisions the port if it is
   one to do so and the number is from 1 to 255, and it succeeds if nothing is refused.
   */
  lemma WriteLaw(s: System, c: Command)
    requires WriteOf(c).Write?
    ensures var w, o := WriteOf(c), Exec(s, c);
            if !Usable(w.config) then o == Outcome(s, false)
            else
              && o.system.rules
                 == s.rules[w.key := Rule(w.config, Policy.State(0, 0, 0, 0, false, 0), 0, 0)]
              && o.system.txPort
                 == s.txPort + (if w.provisions && 0 < w.config.outIfindex < 256 then {w.config.outIfindex} else {})
              && (o.ok <==> w.provisions ==> w.config.outIfindex < 256)
  {
    hide ValidateRule, Usable;
    ValidatedIffUsable(WriteOf(c).config);
  }

  /** Deleting takes out that rule and no other, and leaves the ports; a missing key is no error. */
  lemma DeleteLaw(s: System, k: Key)
    ensures var o := Exec(s, Delete(k));
            && o.ok && k !in o.system.rules && o.system.txPort == s.txPort
            && forall j :: j != k ==>
                 (j in o.system.rules <==> j in s.rules)
                 && (j in s.rules ==> o.system.rules[j] == s.rules[j])
  {
  }

  /** Interface `i` is provisioned before the first number that the port table refuses. */
  predicate Reached(ifaces: seq<u32>, i: u32) {
    exists n :: 0 <= n < |ifaces| && ifaces[n] == i && FitBefore(ifaces, n)
  }

  predicate FitBefore(ifaces: seq<u32>, n: nat)
    requires n < |ifaces|
  {
    forall m :: 0 <= m <= n ==> ifaces[m] < 256
  }

  lemma {:induction false} EnsureAllLaw(s: System, ifaces: seq<u32>)
    ensures var o := EnsureAll(s, ifaces);
            && (o.ok <==> forall n :: 0 <= n < |ifaces| ==> ifaces[n] < 256)
            && o.system.rules == s.rules
            && forall i :: i in o.system.txPort <==> i in s.txPort || Reached(ifaces, i)
    decreases |ifaces|
  {
    if ifaces != [] {
      var o := Ensure(s, ifaces[0]);
      if ifaces[0] < 256 {
        EnsureAllLaw(o.system, ifaces[1..]);
        forall i: u32
          ensures Reached(ifaces, i) <==> i == ifaces[0] || Reached(ifaces[1..], i)
        {
          ReachedNext(ifaces, i);
        }
      } else {
        assert forall n: nat :: n < |ifaces| ==> !FitBefore(ifaces, n);
      }
    }
  }

  lemma ReachedNext(ifaces: seq<u32>, i: u32)
    requires ifaces != [] && ifaces[0] < 256
    ensures Reached(ifaces, i) <==> i == ifaces[0] || Reached(ifaces[1..], i)
  {
    var rest := ifaces[1..];
    if i == ifaces[0] {
      assert FitBefore(ifaces, 0);
    }
    forall n | 0 <= n < |rest| && rest[n] == i && FitBefore(rest, n)
      ensures Reached(ifaces, i)
    {
      assert forall m :: 0 < m <= n + 1 ==> ifaces[m] == rest[m - 1];
      assert FitBefore(ifaces, n + 1);
    }
    forall n | 0 < n < |ifaces| && ifaces[n] == i && FitBefore(ifaces, n)
      ensures Reached(rest, i)
    {
      assert forall m :: 0 <= m <= n - 1 ==> rest[m] == ifaces[m + 1];
      assert FitBefore(rest, n - 1);
    }
  }

  /** A load starts without rules and makes its interfaces egress ports, up to one that does not fit. */
  lemma LoadLaw(s: System, ifaces: seq<u32>)
    ensures var o := Exec(s, Load(ifaces));
            && o.system.rules == map[]
            && (o.ok <==> forall n :: 0 <= n < |ifaces| ==> ifaces[n] < 256)
            && forall i :: i in o.system.txPort <==> Reached(ifaces, i)
  {
    EnsureAllLaw(System(map[], {}), ifaces);
  }

  // ----- Any run -----

  /** The configuration under `k` after `n` events, told from the commands alone. */
  ghost function Configured(s: System, es: seq<Event>, n: nat, k: Key): Option<Rules.Config>
    requires n <= |es|
  {
    if n == 0 then (if k in s.rules then Some(s.rules[k].config) else None)
    else
      var before := Configured(s, es, n - 1, k);
      match es[n - 1]
      case Traffic(_) => before
      case Operator(Load(_)) => None
      case Operator(Delete(key)) => if key == k then None else before
      case Operator(c) => var w := WriteOf(c); if w.key == k && Usable(w.config) then Some(w.config) else before
  }

  /** Interface `i` is an egress port after `n` events, told from the commands alone. */
  ghost predicate Provided(s: System, es: seq<Event>, n: nat, i: u32)
    requires n <= |es|
  {
    if n == 0 then i in s.txPort
    else
      var before := Provided(s, es, n - 1, i);
      match es[n - 1]
      case Traffic(_) => before
      case Operator(Load(ifaces)) => Reached(ifaces, i)
      case Operator(Delete(_)) => before
      case Operator(c) =>
        var w := WriteOf(c);
        before || (Usable(w.config) && w.config.outIfindex == i && 0 < i < 256 && w.provisions)
  }

  /** The map holds exactly this configuration under `k`, or nothing. */
  predicate Holds(t: Table, k: Key, c: Option<Rules.Config>) {
    (k in t <==> c.Some?) && (k in t ==> t[k].config == c.value)
  }

  lemma CommandLaw(s: System, es: seq<Event>, n: nat, k: Key, i: u32)
    requires 0 < n <= |es| && es[n - 1].Operator?
    requires Holds(Evolve(s, es, n - 1).rules, k, Configured(s, es, n - 1, k))
    requires i in Evolve(s, es, n - 1).txPort <==> Provided(s, es, n - 1, i)
    ensures Holds(Evolve(s, es, n).rules, k, Configured(s, es, n, k))
    ensures i in Evolve(s, es, n).txPort <==> Provided(s, es, n, i)
  {
    hide Exec, Usable, Reached;
    var u, c := Evolve(s, es, n - 1), es[n - 1].c;
    match c {
      case Load(ifaces) => LoadLaw(u, ifaces);
      case Delete(key) => DeleteLaw(u, key);
      case _ => WriteLaw(u, c);
    }
  }

  /**
   Over any run of commands and traffic the rules in the maps and the egress ports
   are exactly those of the commands: the last write that was accepted, unless it
   was deleted or a load came after it; and the ports provisioned since the load.
   */
  lemma {:induction false} MapsAreLastWritten(s: System, es: seq<Event>, n: nat, k: Key, i: u32)
    requires n <= |es|
    ensures Holds(Evolve(s, es, n).rules, k, Configured(s, es, n, k))
    ensures i in Evolve(s, es, n).txPort <==> Provided(s, es, n, i)
  {
    hide Exec, Usable, Step, Reached;
    if n > 0 {
      MapsAreLastWritten(s, es, n - 1, k, i);
      match es[n - 1] {
        case Operator(_) => CommandLaw(s, es, n, k, i);
        case Traffic(p) =>
          var u := Evolve(s, es, n - 1);
          StepFrame(u.txPort, u.rules, p);
      }
    }
  }

  /** None of the first `n` commands writes a rule under `k`. */
  ghost predicate NotWritten(es: seq<Event>, n: nat, k: Key)
    requires n <= |es|
  {
    forall i :: 0 <= i < n && es[i].Operator? ==> var w := WriteOf(es[i].c); w.Write? ==> w.key != k
  }

  lemma {:induction false} StaysUnconfigured(s: System, es: seq<Event>, n: nat, k: Key)
    requires n <= |es| && k !in s.rules && NotWritten(es, n, k)
    ensures Configured(s, es, n, k) == None
  {
    if n > 0 {
      StaysUnconfigured(s, es, n - 1, k);
    }
  }

  /** A deleted rule decides about no packet until a command writes one under its key again. */
  lemma DeletedDecidesNothing(s: System, es: seq<Event>, i: nat, k: Key)
    requires i < |es| && es[i].Traffic? && NotWritten(es, i, k)
    ensures var t := Exec(s, Delete(k)).system;
            k !in Evolve(t, es, i).rules && ChosenAt(t, es, i) != Some(k)
  {
    hide Step, WriteOf, Evolve;
    var t := Exec(s, Delete(k)).system;
    DeleteLaw(s, k);
    StaysUnconfigured(t, es, i, k);
    MapsAreLastWritten(t, es, i, k, 0);
    var u := Evolve(t, es, i);
    SelectedPresent(u.rules, es[i].p);
  }

  lemma SelectedPresent(t: Table, p: Packet)
    ensures Chosen(t, p).Some? ==> Chosen(t, p).value in t
  {
  }

  // ----- What validation reports -----

  /** The rule lacks what error `e` is about. */
  predicate Lacks(c: Rules.Config, e: RuleError) {
    match e
    case QuarantineNeedsDuration => c.limits.threshold != 0 && c.limits.seconds == 0
    case NeedsOutIface => c.action != 0 && c.outIfindex == 0
    case NeedsDMac => c.action != 0 && c.dmac == [0, 0, 0, 0, 0, 0]
    case NeedsSMac => c.action != 0 && c.smac == [0, 0, 0, 0, 0, 0]
    case NeedsTeidOut => c.action == 2 && c.teidOut == 0
    case NeedsDstIp => c.action == 2 && c.dstIp == 0
    case NeedsSrcIp => c.action == 2 && c.srcIp == 0
  }

  /** The order in which requirements are looked at. */
  function Rank(e: RuleError): nat {
    match e
    case QuarantineNeedsDuration => 0
    case NeedsOutIface => 1
    case NeedsDMac => 2
    case NeedsSMac => 3
    case NeedsTeidOut => 4
    case NeedsDstIp => 5
    case NeedsSrcIp => 6
  }

  /** Validation reports exactly the first requirement that a rule lacks, and accepts a rule that lacks none. */
  lemma ReportsFirstLack(c: Rules.Config)
    ensures forall e :: ValidateRule(c) == Some(e)
                        <==> Lacks(c, e) && forall d :: Rank(d) < Rank(e) ==> !Lacks(c, d)
    ensures ValidateRule(c) == None <==> forall e :: !Lacks(c, e)
  {
    assert ValidateRule(c).Some? ==> Lacks(c, ValidateRule(c).value);
    assert ValidateRule(c).Some? ==> forall d :: Rank(d) < Rank(ValidateRule(c).value) ==> !Lacks(c, d);
  }
}
