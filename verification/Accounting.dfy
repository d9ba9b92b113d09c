/** Every packet of a run is counted once, under its verdict, on whichever CPU it ran. */
module Accounting {
  import opened Bytes
  import opened Dataplane
  import opened ControlPlane
  import Stats
  import Gtpu
  import Policy

  predicate Known(key: u32) {
    key == Stats.STAT_PASS || key == Stats.STAT_DROP || key == Stats.STAT_REDIRECT
  }

  function KeyOf(slot: Slot): (key: u32)
    ensures Known(key)
  {
    match slot
    case PassSlot => Stats.STAT_PASS
    case DropSlot => Stats.STAT_DROP
    case RedirectSlot => Stats.STAT_REDIRECT
  }

  lemma KeyOfInjective(s: Slot, t: Slot)
    ensures KeyOf(s) == KeyOf(t) <==> s == t
  {
    match (s, t) {
      case (PassSlot, PassSlot) =>
      case (DropSlot, DropSlot) =>
      case (RedirectSlot, RedirectSlot) =>
      case _ =>
    }
  }

  /** The slot a packet belongs to, told from its verdict; a frame cut short in a header has none. */
  ghost predicate BelongsTo(f: seq<byte>, v: Verdict, slot: Slot) {
    match slot
    case PassSlot => v.Pass?
    case DropSlot => v.Drop? && !Gtpu.Parse(f).Truncated?
    case RedirectSlot => v.Redirect? || v.Aborted?
  }

  /** A packet bumps exactly the slot of its verdict; only frames cut short bump none. */
  lemma SlotIsVerdict(tx: set<u32>, t: Table, p: Packet)
    ensures var r := Step(tx, t, p);
            && (forall slot :: r.slot == Some(slot) <==> BelongsTo(p.frame, r.verdict, slot))
            && (r.slot.None? <==> Gtpu.Parse(p.frame).Truncated?)
            && (r.slot.None? ==> r.verdict.Drop? && r.table == t)
  {
    hide Gtpu.Parse, Act, Policy.Enforce;
  }

  /** The counted packets among the first `n` events, with the CPU each ran on. */
  ghost function Log(s: System, es: seq<Event>, cpus: seq<nat>, n: nat): seq<Stats.Event>
    requires n <= |es| == |cpus|
  {
    if n == 0 then []
    else
      var before := Log(s, es, cpus, n - 1);
      if es[n - 1].Operator? || ResultAt(s, es, n - 1).slot.None? then before
      else before + [Stats.Event(cpus[n - 1], KeyOf(ResultAt(s, es, n - 1).slot.value), |es[n - 1].p.frame|)]
  }

  /** Event `i` is a packet that belongs to `slot` by its verdict. */
  ghost predicate LandsIn(s: System, es: seq<Event>, i: nat, slot: Slot)
    requires i < |es|
  {
    es[i].Traffic? && BelongsTo(es[i].p.frame, ResultAt(s, es, i).verdict, slot)
  }

  /** How many of the first `n` events are packets that belong to `slot` by their verdict. */
  ghost function Landed(s: System, es: seq<Event>, n: nat, slot: Slot): nat
    requires n <= |es|
  {
    if n == 0 then 0 else Landed(s, es, n - 1, slot) + if LandsIn(s, es, n - 1, slot) then 1 else 0
  }

  /** The original bytes of those packets. */
  ghost function LandedBytes(s: System, es: seq<Event>, n: nat, slot: Slot): nat
    requires n <= |es|
  {
    if n == 0 then 0
    else LandedBytes(s, es, n - 1, slot) + if LandsIn(s, es, n - 1, slot) then |es[n - 1].p.frame| else 0
  }

  /** How many of the first `n` events are packets. */
  function Packets(es: seq<Event>, n: nat): nat
    requires n <= |es|
  {
    if n == 0 then 0 else Packets(es, n - 1) + if es[n - 1].Traffic? then 1 else 0
  }

  /** How many of the first `n` events are frames cut short in a header. */
  function CutShort(es: seq<Event>, n: nat): nat
    requires n <= |es|
  {
    if n == 0 then 0
    else CutShort(es, n - 1)
         + if es[n - 1].Traffic? && Gtpu.Parse(es[n - 1].p.frame).Truncated? then 1 else 0
  }

  lemma PlusMod(packets: nat, bytes: nat, more: nat)
    ensures Stats.VerdictStat(Wrap64(packets), Wrap64(bytes)).Plus(1, more)
            == Stats.VerdictStat(Wrap64(packets + 1), Wrap64(bytes + more))
  {
    AddMod(packets, 1);
    AddMod(bytes, more);
  }

  lemma SequentialNone(key: u32)
    ensures Stats.Sequential([], key) == Stats.VerdictStat(Wrap64(0), Wrap64(0))
  {
  }

  lemma SequentialAppend(es: seq<Stats.Event>, e: Stats.Event, key: u32)
    ensures Stats.Sequential(es + [e], key)
            == if e.key == key then Stats.Sequential(es, key).Plus(1, e.bytes) else Stats.Sequential(es, key)
  {
    assert (es + [e])[..|es + [e]| - 1] == es;
  }

  /** The slot that was bumped tells which of the three kinds event `i` is. */
  lemma SlotTells(s: System, es: seq<Event>, i: nat, slot: Slot)
    requires i < |es| && es[i].Traffic?
    ensures LandsIn(s, es, i, slot) <==> ResultAt(s, es, i).slot == Some(slot)
    ensures ResultAt(s, es, i).slot.None? <==> Gtpu.Parse(es[i].p.frame).Truncated?
  {
    hide Step, BelongsTo, Gtpu.Parse, Evolve;
    var u := Evolve(s, es, i);
    SlotIsVerdict(u.txPort, u.rules, es[i].p);
  }

  lemma {:induction false} LogCountsLanded(s: System, es: seq<Event>, cpus: seq<nat>, n: nat, slot: Slot)
    requires n <= |es| == |cpus|
    ensures Stats.Sequential(Log(s, es, cpus, n), KeyOf(slot))
            == Stats.VerdictStat(Wrap64(Landed(s, es, n, slot)), Wrap64(LandedBytes(s, es, n, slot)))
  {
    hide ResultAt, LandsIn, KeyOf, Stats.Sequential, Stats.VerdictStat.Plus, Wrap64;
    if n == 0 {
      SequentialNone(KeyOf(slot));
    } else {
      LogCountsLanded(s, es, cpus, n - 1, slot);
      if es[n - 1].Traffic? {
        SlotTells(s, es, n - 1, slot);
        var own, bytes := ResultAt(s, es, n - 1).slot, |es[n - 1].p.frame|;
        if own.Some? {
          SequentialAppend(Log(s, es, cpus, n - 1), Stats.Event(cpus[n - 1], KeyOf(own.value), bytes), KeyOf(slot));
          KeyOfInjective(own.value, slot);
          PlusMod(Landed(s, es, n - 1, slot), LandedBytes(s, es, n - 1, slot), bytes);
        }
      } else {
        NotLanded(s, es, n - 1, slot);
      }
    }
  }

  lemma NotLanded(s: System, es: seq<Event>, i: nat, slot: Slot)
    requires i < |es| && es[i].Operator?
    ensures !LandsIn(s, es, i, slot)
  {
  }

  lemma {:induction false} LogOnCpus(s: System, es: seq<Event>, cpus: seq<nat>, n: nat, limit: nat)
    requires n <= |es| == |cpus| && forall i :: 0 <= i < |cpus| ==> cpus[i] < limit
    ensures forall e :: e in Log(s, es, cpus, n) ==> e.cpu < limit && Known(e.key)
  {
    hide ResultAt;
    if n > 0 {
      LogOnCpus(s, es, cpus, n - 1, limit);
    }
  }

  /** The statistics are not reset: no load among these events. */
  ghost predicate NoLoad(es: seq<Event>) {
    forall i :: 0 <= i < |es| && es[i].Operator? ==> !es[i].c.Load?
  }

  /**
   For every run since a load, whatever rules are written meanwhile and however its
   packets are spread over CPUs, the totals read at quiescence are, modulo 2^64, the
   numbers and original bytes of the packets passed, dropped and redirected.
   */
  lemma VerdictsAccounted(s: System, es: seq<Event>, cpus: seq<nat>, limit: nat, m: Stats.PerCpu, slot: Slot)
    requires NoLoad(es) && Stats.Zeroed(m, limit)
    requires |es| == |cpus| && forall i :: 0 <= i < |cpus| ==> cpus[i] < limit
    ensures var r := Stats.Replay(m, Log(s, es, cpus, |es|));
            && KeyOf(slot) in r
            && Stats.Total(r[KeyOf(slot)])
               == Stats.VerdictStat(Wrap64(Landed(s, es, |es|, slot)), Wrap64(LandedBytes(s, es, |es|, slot)))
  {
    hide ResultAt, Stats.Total;
    assert forall key :: Known(key) ==> key in m;
    LogOnCpus(s, es, cpus, |es|, limit);
    Stats.SpreadCountsSequentially(m, limit, Log(s, es, cpus, |es|), KeyOf(slot));
    LogCountsLanded(s, es, cpus, |es|, slot);
  }

  /** How many packets of that verdict, and their original bytes, as 64-bit counters show them. */
  ghost function Reported(s: System, es: seq<Event>, slot: Slot): Stats.VerdictStat {
    Stats.VerdictStat(Wrap64(Landed(s, es, |es|, slot)), Wrap64(LandedBytes(s, es, |es|, slot)))
  }

  /**
   What the control plane reads back - passed under key 0, dropped under 1, redirected
   under 3 - is what the data plane did.
   */
  lemma CountersReported(s: System, es: seq<Event>, cpus: seq<nat>, limit: nat, m: Stats.PerCpu)
    requires NoLoad(es) && Stats.Zeroed(m, limit)
    requires |es| == |cpus| && forall i :: 0 <= i < |cpus| ==> cpus[i] < limit
    ensures var r := Stats.Replay(m, Log(s, es, cpus, |es|));
            && 0 in r && 1 in r && 3 in r
            && Stats.Counters(Stats.Total(r[0]), Stats.Total(r[1]), Stats.Total(r[3]))
               == Stats.Counters(Reported(s, es, PassSlot), Reported(s, es, DropSlot), Reported(s, es, RedirectSlot))
  {
    hide Stats.Total, Stats.Replay, Log, Landed, LandedBytes, Wrap64;
    VerdictsAccounted(s, es, cpus, limit, m, PassSlot);
    VerdictsAccounted(s, es, cpus, limit, m, DropSlot);
    VerdictsAccounted(s, es, cpus, limit, m, RedirectSlot);
  }

  /** No packet is missed or counted twice: the three counts and the frames cut short add up. */
  lemma {:induction false} EveryPacketLandsOnce(s: System, es: seq<Event>, n: nat)
    requires n <= |es|
    ensures Landed(s, es, n, PassSlot) + Landed(s, es, n, DropSlot) + Landed(s, es, n, RedirectSlot)
            + CutShort(es, n) == Packets(es, n)
  {
    hide ResultAt, Gtpu.Parse, LandsIn;
    if n > 0 {
      EveryPacketLandsOnce(s, es, n - 1);
      if es[n - 1].Traffic? {
        SlotTells(s, es, n - 1, PassSlot);
        SlotTells(s, es, n - 1, DropSlot);
        SlotTells(s, es, n - 1, RedirectSlot);
        var own := ResultAt(s, es, n - 1).slot;
        assert own.None? || own.value.PassSlot? || own.value.DropSlot? || own.value.RedirectSlot?;
      } else {
        NotLanded(s, es, n - 1, PassSlot);
        NotLanded(s, es, n - 1, DropSlot);
        NotLanded(s, es, n - 1, RedirectSlot);
      }
    }
  }
}
