/**
 The maps as the two planes share them: the control plane puts rules in and takes
 them out, the data plane updates the rules it finds in place.
 */
module Maps {
  import opened Bytes
  import opened Dataplane
  import opened ControlPlane
  import opened FwdRules
  import Policy
  import Rules

  class RuleMaps {
    var rules: map<Key, FwdRule>
    var txPort: set<u32>

    /** As loaded: empty. */
    constructor ()
      ensures Valid() && Contents() == System(map[], {})
    {
      rules, txPort := map[], {};
    }

    /** Map values are separate memory: no two keys share one. */
    ghost predicate Valid()
      reads this
    {
      forall j, k :: j in rules && k in rules && j != k ==> rules[j] != rules[k]
    }

    /** The values of the rules. */
    ghost function Table(): (t: Dataplane.Table)
      reads this, rules.Values
      ensures t.Keys == rules.Keys
      ensures forall k :: k in rules ==> t[k].config == rules[k].config
    {
      map k | k in rules :: rules[k].Value()
    }

    ghost function Contents(): System
      reads this, rules.Values
    {
      System(Table(), txPort)
    }

    /** Writes a new value under `k`, in memory of its own. */
    method Put(k: Key, config: Rules.Config)
      requires Valid()
      modifies this`rules
      ensures Valid() && rules.Keys == old(rules.Keys) + {k} && fresh(rules[k])
      ensures forall j :: j in old(rules) && j != k ==> rules[j] == old(rules)[j]
      ensures Contents() == old(Contents()).(rules := old(Contents()).rules[k := Written(config)])
    {
      var rule := new FwdRule(config);
      rules := rules[k := rule];
      assert Table() == old(Table())[k := Written(config)];
    }

    method EnsurePort(ifindex: u32) returns (ok: bool)
      modifies this`txPort
      ensures Outcome(Contents(), ok) == EnsureTxPort(old(Contents()), ifindex)
    {
      if ifindex == 0 {
        return true;
      }
      if ifindex >= MAX_IFINDEX {
        return false;
      }
      txPort := txPort + {ifindex};
      ok := true;
    }

    /** The add-teid command, from the parsed rule on. */
    method AddTeidRule(teid: u32, config: Rules.Config) returns (ok: bool)
      requires Valid()
      modifies this
      ensures Valid() && Outcome(Contents(), ok) == Exec(old(Contents()), AddTeid(teid, config))
    {
      if ValidateRule(config).Some? {
        return false;
      }
      Put(Teid(teid), config);
      ok := EnsurePort(config.outIfindex);
    }

    /** The add-nat command: the rule is filled in, then checked, written and provisioned. */
    method AddNatRule(natIp: u32, ueIp: u32, tunnel: Rules.Config) returns (ok: bool)
      requires Valid()
      modifies this
      ensures Valid() && Outcome(Contents(), ok) == Exec(old(Contents()), AddNat(natIp, ueIp, tunnel))
    {
      var rule := tunnel.(action := Rules.ACTION_ENCAP);
      rule := rule.(natIp := ueIp);
      rule := rule.(limits := Policy.Config(0, 0, 0));
      if ValidateRule(rule).Some? {
        return false;
      }
      Put(NatIp(natIp), rule);
      ok := EnsurePort(rule.outIfindex);
    }

    /** The add-ueip command, which writes the rule and stops there. */
    method AddUeipRule(ip: u32, config: Rules.Config) returns (ok: bool)
      requires Valid()
      modifies this`rules
      ensures Valid() && Outcome(Contents(), ok) == Exec(old(Contents()), AddUeip(ip, config))
    {
      if ValidateRule(config).Some? {
        return false;
      }
      Put(UeIp(ip), config);
      ok := true;
    }

    method DeleteRule(key: Key)
      requires Valid()
      modifies this`rules
      ensures Valid() && Outcome(Contents(), true) == Exec(old(Contents()), Delete(key))
    {
      rules := rules - {key};
      assert Table() == old(Table()) - {key};
    }
  }
}
