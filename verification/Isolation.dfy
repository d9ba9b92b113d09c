/**
 Subscriber isolation: whatever other rules the operator writes, whatever traffic
 the router carries for others, each rule behaves as if its policy were evaluated
 alone on its own packets.
 */
module Isolation {
  import opened Bytes
  import opened Dataplane
  import opened ControlPlane
  import Policy
  import Gtpu
  import RateCap
  import Arrivals
  import Quarantine

  /** The arrival times of those packets among the first `n` events that rule `k` decides about. */
  ghost function TimesOf(s: System, es: seq<Event>, n: nat, k: Key): seq<u64>
    requires n <= |es|
  {
    if n == 0 then []
    else
      TimesOf(s, es, n - 1, k)
      + if es[n - 1].Traffic? && ChosenAt(s, es, n - 1) == Some(k) then [es[n - 1].p.now] else []
  }

  /** The policy of rule `k` run alone on its own packets. */
  ghost function Alone(s: System, es: seq<Event>, n: nat, k: Key): Policy.Run
    requires n <= |es| && k in s.rules
  {
    Policy.Run(s.rules[k].config.limits, s.rules[k].policy, TimesOf(s, es, n, k))
  }

  lemma AppendStep(r: Policy.Run, now: u64)
    ensures var q := r.(ts := r.ts + [now]);
            && q.At(|r.ts|) == r.At(|r.ts|)
            && q.At(|r.ts| + 1) == Policy.Enforce(r.c, r.At(|r.ts|), now).state
            && q.VerdictAt(|r.ts|) == Policy.Enforce(r.c, r.At(|r.ts|), now).verdict
  {
    hide Policy.Enforce;
    Policy.RunPrefix(r, [now], |r.ts|);
    var q := r.(ts := r.ts + [now]);
    assert q.ts[|r.ts|] == now;
  }

  /**
   As long as no command is about a rule, its policy state is that of its own
   packets alone, under any mix of other commands and traffic.
   */
  lemma {:induction false} StateIsolated(s: System, es: seq<Event>, n: nat, k: Key)
    requires n <= |es| && k in s.rules && Undisturbed(es, n, k)
    ensures var u, r := Evolve(s, es, n), Alone(s, es, n, k);
            && k in u.rules && u.rules[k].config == s.rules[k].config
            && u.rules[k].policy == r.At(|r.ts|)
  {
    hide Exec, Step, Policy.Enforce, Gtpu.Parse, Select;
    if n > 0 {
      StateIsolated(s, es, n - 1, k);
      var u, r := Evolve(s, es, n - 1), Alone(s, es, n - 1, k);
      match es[n - 1] {
        case Operator(c) =>
          OtherCommandKeepsRule(u, c, k);
          assert Alone(s, es, n, k) == r;
        case Traffic(p) =>
          StepFrame(u.txPort, u.rules, p);
          AppendStep(r, p.now);
          if ChosenAt(s, es, n - 1) == Some(k) {
            assert Alone(s, es, n, k) == r.(ts := r.ts + [p.now]);
          } else {
            assert Alone(s, es, n, k) == r;
          }
      }
    }
  }

  /** Packet `i` is one that rule `k` decides about. */
  ghost predicate Own(s: System, es: seq<Event>, i: nat, k: Key)
    requires i < |es|
  {
    es[i].Traffic? && ChosenAt(s, es, i) == Some(k)
  }

  /**
   The decision about each packet is the one its rule would have made alone: the
   position of the packet among the rule's own packets is all that matters.
   */
  lemma VerdictIsolated(s: System, es: seq<Event>, i: nat, k: Key)
    requires i < |es| && k in s.rules && Undisturbed(es, i, k) && Own(s, es, i, k)
    ensures var u, own := Evolve(s, es, i), Alone(s, es, i + 1, k);
            && k in u.rules
            && |own.ts| == |TimesOf(s, es, i, k)| + 1 && own.ts[|own.ts| - 1] == es[i].p.now
            && Decide(u.rules, k, es[i].p.now).verdict == own.VerdictAt(|own.ts| - 1)
  {
    hide Exec, Step, Policy.Enforce, Gtpu.Parse, Select;
    StateIsolated(s, es, i, k);
    var r := Alone(s, es, i, k);
    AppendStep(r, es[i].p.now);
    assert Alone(s, es, i + 1, k) == r.(ts := r.ts + [es[i].p.now]);
  }

  /**
   Two routers that agree on a rule and on the arrivals of its own packets leave
   it in the same state, however different their other rules, traffic and commands.
   */
  lemma NeighboursIrrelevant(s: System, es: seq<Event>, t: System, fs: seq<Event>, k: Key)
    requires k in s.rules && Undisturbed(es, |es|, k) && k in t.rules && Undisturbed(fs, |fs|, k)
    requires s.rules[k].config == t.rules[k].config && s.rules[k].policy == t.rules[k].policy
    requires TimesOf(s, es, |es|, k) == TimesOf(t, fs, |fs|, k)
    ensures var u, v := Evolve(s, es, |es|), Evolve(t, fs, |fs|);
            k in u.rules && k in v.rules && u.rules[k].policy == v.rules[k].policy
  {
    StateIsolated(s, es, |es|, k);
    StateIsolated(t, fs, |fs|, k);
  }

  // ----- The policy theorems hold inside the router -----

  /** The clock of a sequence of events: packets arrive in order. */
  ghost predicate Clocked(es: seq<Event>) {
    && (forall i, j :: 0 <= i <= j < |es| && es[i].Traffic? && es[j].Traffic? ==> es[i].p.now <= es[j].p.now)
    && (forall i :: 0 <= i < |es| && es[i].Traffic? ==> es[i].p.now < 0x8000_0000_0000_0000)
  }

  /** Some packet among the first `n` events arrives at `now`. */
  ghost predicate FromPacket(now: u64, es: seq<Event>, n: nat)
    requires n <= |es|
  {
    exists m :: 0 <= m < n && es[m].Traffic? && es[m].p.now == now
  }

  /** Each of these times is that of a packet among the first `n` events. */
  ghost predicate FromPackets(ts: seq<u64>, es: seq<Event>, n: nat)
    requires n <= |es|
  {
    forall i :: 0 <= i < |ts| ==> FromPacket(ts[i], es, n)
  }

  lemma {:induction false} TimesClocked(s: System, es: seq<Event>, n: nat, k: Key)
    requires Clocked(es) && n <= |es|
    ensures Policy.Clock(TimesOf(s, es, n, k)) && FromPackets(TimesOf(s, es, n, k), es, n)
  {
    hide ChosenAt;
    if n > 0 {
      TimesClocked(s, es, n - 1, k);
      var before := TimesOf(s, es, n - 1, k);
      if es[n - 1].Traffic? {
        ClockExtends(before, es, n);
      }
    }
  }

  lemma ClockExtends(ts: seq<u64>, es: seq<Event>, n: nat)
    requires Clocked(es) && 0 < n <= |es| && es[n - 1].Traffic?
    requires Policy.Clock(ts) && FromPackets(ts, es, n - 1)
    ensures Policy.Clock(ts + [es[n - 1].p.now]) && FromPackets(ts + [es[n - 1].p.now], es, n)
  {
    assert FromPacket(es[n - 1].p.now, es, n);
    forall i | 0 <= i < |ts|
      ensures ts[i] <= es[n - 1].p.now && FromPacket(ts[i], es, n)
    {
      assert FromPacket(ts[i], es, n - 1);
      var m :| 0 <= m < n - 1 && es[m].Traffic? && es[m].p.now == ts[i];
    }
  }

  /** How many of the packets among the first `n` events are sent out by rule `k` with arrival in [a, b). */
  ghost function SentIn(s: System, es: seq<Event>, n: nat, k: Key, a: nat, b: nat): nat
    requires n <= |es|
  {
    if n == 0 then 0
    else
      SentIn(s, es, n - 1, k, a, b)
      + if Own(s, es, n - 1, k) && a <= es[n - 1].p.now < b
           && ResultAt(s, es, n - 1).slot == Some(RedirectSlot) then 1 else 0
  }

  /** Only admitted packets are sent. */
  lemma SentWasAdmitted(tx: set<u32>, t: Table, k: Key, p: Packet)
    requires k in t && Apply(tx, t, k, p).slot == Some(RedirectSlot)
    ensures Decide(t, k, p.now).verdict == Policy.Admit
  {
    hide Act, Policy.Enforce;
  }

  lemma {:induction false} SentAtMostAdmitted(s: System, es: seq<Event>, n: nat, k: Key, a: nat, b: nat)
    requires n <= |es| && k in s.rules && Undisturbed(es, n, k)
    ensures var r := Alone(s, es, n, k);
            SentIn(s, es, n, k, a, b) <= RateCap.AdmittedIn(r, |r.ts|, a, b)
  {
    hide Exec, Step, Apply, Policy.Enforce, Gtpu.Parse, Select, Decide;
    if n > 0 {
      SentAtMostAdmitted(s, es, n - 1, k, a, b);
      var r, q := Alone(s, es, n - 1, k), Alone(s, es, n, k);
      if Own(s, es, n - 1, k) {
        var p, u := es[n - 1].p, Evolve(s, es, n - 1);
        VerdictIsolated(s, es, n - 1, k);
        assert q == r.(ts := r.ts + [p.now]);
        RateCap.AdmittedPrefix(r, [p.now], |r.ts|, a, b);
        assert q.ts[|r.ts|] == p.now;
        StepFrame(u.txPort, u.rules, p);
        if ResultAt(s, es, n - 1).slot == Some(RedirectSlot) {
          SentWasAdmitted(u.txPort, u.rules, k, p);
        }
      } else {
        assert q == r;
      }
    }
  }

  /** No packet arrives in the first second of the clock. */
  ghost predicate AfterFirstSecond(es: seq<Event>) {
    forall i :: 0 <= i < |es| && es[i].Traffic? ==> es[i].p.now >= Policy.NANOS
  }

  /**
   From the moment a rule with a cap is written, and until a command is about it
   again, it sends at most (seconds + 1) * cap of its packets in any interval
   [a, b), under any mix of other commands and traffic; one less if no packet
   arrives in the first second of the clock.
   */
  lemma RouterRateCap(s: System, es: seq<Event>, k: Key, a: nat, b: nat)
    requires Clocked(es) && k in s.rules && Undisturbed(es, |es|, k) && a < b
    requires s.rules[k].policy == Policy.FRESH && 0 < s.rules[k].config.limits.ratePps
    ensures SentIn(s, es, |es|, k, a, b) <= (RateCap.Seconds(b - a) + 1) * s.rules[k].config.limits.ratePps
    ensures AfterFirstSecond(es) ==>
              SentIn(s, es, |es|, k, a, b) <= (RateCap.Seconds(b - a) + 1) * s.rules[k].config.limits.ratePps - 1
  {
    TimesClocked(s, es, |es|, k);
    RateCap.RateCapHolds(Alone(s, es, |es|, k), a, b);
    SentAtMostAdmitted(s, es, |es|, k, a, b);
  }

  /** A packet that keeps its rule's own traffic within the cap is admitted, whatever else happens. */
  lemma RouterNoFalseDrops(s: System, es: seq<Event>, i: nat, k: Key)
    requires Clocked(es) && i < |es| && k in s.rules && Undisturbed(es, i, k) && Own(s, es, i, k)
    requires s.rules[k].policy == Policy.FRESH && 0 < s.rules[k].config.limits.ratePps
    requires RateCap.Conforming(TimesOf(s, es, i + 1, k), s.rules[k].config.limits.ratePps)
    ensures var u := Evolve(s, es, i);
            k in u.rules && Decide(u.rules, k, es[i].p.now).verdict == Policy.Admit
  {
    TimesClocked(s, es, i + 1, k);
    VerdictIsolated(s, es, i, k);
    RateCap.NoFalseDrops(Alone(s, es, i + 1, k));
  }

  /**
   A packet of a validated rule is blocked exactly when an earlier packet of the
   same rule set a quarantine that has not expired; nothing else has a say.
   */
  lemma RouterBlockedIff(s: System, es: seq<Event>, i: nat, k: Key)
    requires Clocked(es) && i < |es| && k in s.rules && Undisturbed(es, i, k) && Own(s, es, i, k)
    requires s.rules[k].policy == Policy.FRESH && s.rules[k].config.limits.Valid()
    ensures var u, own := Evolve(s, es, i), Alone(s, es, i + 1, k);
            && k in u.rules
            && (Decide(u.rules, k, es[i].p.now).verdict == Policy.Blocked
                <==> exists j :: 0 <= j < |own.ts| - 1 && own.Trips(j)
                                 && es[i].p.now < Quarantine.Deadline(own, j))
  {
    hide Policy.Enforce, Decide, Evolve;
    TimesClocked(s, es, i + 1, k);
    VerdictIsolated(s, es, i, k);
    Quarantine.BlockedIffQuarantined(Alone(s, es, i + 1, k), |TimesOf(s, es, i, k)|);
  }

  /**
   The verdict about each packet of a validated rule, told from nothing but the
   arrival times of that rule's packets.
   */
  lemma RouterVerdict(s: System, es: seq<Event>, i: nat, k: Key)
    requires Clocked(es) && i < |es| && k in s.rules && Undisturbed(es, i, k) && Own(s, es, i, k)
    requires s.rules[k].policy == Policy.FRESH && s.rules[k].config.limits.Valid()
    ensures var u, c := Evolve(s, es, i), s.rules[k].config.limits;
            var us := Arrivals.LetThrough(c, TimesOf(s, es, i, k), |TimesOf(s, es, i, k)|);
            && k in u.rules
            && Decide(u.rules, k, es[i].p.now).verdict == Arrivals.VerdictBehind(c, us, es[i].p.now)
  {
    hide Policy.Enforce, Decide, Evolve, Arrivals.VerdictBehind;
    TimesClocked(s, es, i + 1, k);
    VerdictIsolated(s, es, i, k);
    var own, n := Alone(s, es, i + 1, k), |TimesOf(s, es, i, k)|;
    Arrivals.VerdictsFromArrivals(own, n);
    Arrivals.LetThroughPrefix(own.c, TimesOf(s, es, i, k), own.ts, n);
  }
}
