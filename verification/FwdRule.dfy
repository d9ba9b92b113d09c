/** A map value as the data plane updates it in place. */
module FwdRules {
  import opened Bytes
  import Dataplane
  import Policy
  import Rules

  class FwdRule {
    const config: Rules.Config
    var windowCount: u32
    var windowStartNs: u64
    var rateDropCount: u64
    var violationStreak: u32
    var windowViolated: u32
    var quarantineUntilNs: u64
    var pktCount: u64
    var byteCount: u64

    /** As the control plane writes it. */
    constructor (config: Rules.Config)
      ensures this.config == config
      ensures Value() == Dataplane.Rule(config, Policy.FRESH, 0, 0)
    {
      this.config := config;
      windowCount, windowStartNs, rateDropCount := 0, 0, 0;
      violationStreak, windowViolated, quarantineUntilNs := 0, 0, 0;
      pktCount, byteCount := 0, 0;
    }

    function PolicyState(): Policy.State
      reads this
    {
      Policy.State(windowCount, windowStartNs, rateDropCount, violationStreak, windowViolated != 0, quarantineUntilNs)
    }

    function Value(): Dataplane.Rule
      reads this
    {
      Dataplane.Rule(config, PolicyState(), pktCount, byteCount)
    }

    /** Scores the window that ended and opens a new one. */
    method RollWindow(now: u64)
      modifies this
      ensures Value() == old(Value()).(policy := Policy.Roll(config.limits, old(PolicyState()), now))
    {
      if windowViolated != 0 {
        violationStreak := (violationStreak + 1) % U32_SIZE;
        if config.limits.threshold != 0 && violationStreak >= config.limits.threshold {
          quarantineUntilNs := (now + config.limits.seconds * Policy.NANOS) % U64_SIZE;
          violationStreak := 0;
        }
      } else {
        violationStreak := 0;
      }
      windowStartNs := now;
      windowCount := 0;
      windowViolated := 0;
    }

    /** The rate cap and quarantine for one packet; true means drop. */
    method EnforcePolicy(now: u64) returns (drop: bool)
      modifies this
      ensures Value() == old(Value()).(policy := Policy.Enforce(config.limits, old(PolicyState()), now).state)
      ensures drop <==> Policy.Enforce(config.limits, old(PolicyState()), now).verdict != Policy.Admit
    {
      if quarantineUntilNs != 0 {
        if now < quarantineUntilNs {
          return true;
        }
        quarantineUntilNs := 0;
        violationStreak := 0;
      }
      if config.limits.ratePps == 0 {
        return false;
      }
      if Policy.Minus64(now, windowStartNs) >= Policy.NANOS {
        RollWindow(now);
      }
      if windowCount >= config.limits.ratePps {
        windowViolated := 1;
        rateDropCount := Wrap64(rateDropCount + 1);
        return true;
      }
      windowCount := windowCount + 1;
      return false;
    }

    method BumpRule(bytes: nat)
      modifies this`pktCount, this`byteCount
      ensures Value() == old(Value()).Bumped(bytes)
    {
      pktCount := Wrap64(pktCount + 1);
      byteCount := Wrap64(byteCount + bytes);
    }
  }
}
