/**
 The packet program on live objects: rules updated in place in the maps, a packet
 buffer overwritten in place, statistics bumped per CPU. Each invocation is proved
 to be one `Dataplane.Step`.
 */
module Router {
  import opened Bytes
  import opened Nat
  import opened Gtpu
  import opened Dataplane
  import opened Maps
  import opened Xdp
  import Accounting
  import Policy
  import Rules
  import Stats

  class Program {
    const maps: RuleMaps
    const stats: Stats.StatsMap
    const cpu: nat

    constructor (maps: RuleMaps, stats: Stats.StatsMap, cpu: nat)
      ensures this.maps == maps && this.stats == stats && this.cpu == cpu
    {
      this.maps, this.stats, this.cpu := maps, stats, cpu;
    }

    /** The statistics after one outcome. */
    ghost function Bumped(m: Stats.PerCpu, slot: Option<Slot>, bytes: nat): Stats.PerCpu {
      match slot
      case None => m
      case Some(s) => Stats.Bump(m, cpu, Accounting.KeyOf(s), bytes)
    }

    method BumpStats(slot: Slot, bytes: nat)
      modifies stats
      ensures stats.entries == Bumped(old(stats.entries), Some(slot), bytes)
    {
      stats.BumpStats(cpu, Accounting.KeyOf(slot), bytes);
    }

    method RedirectTo(ifindex: u32) returns (v: Verdict)
      ensures v == RedirectOut(maps.txPort, ifindex)
    {
      v := if ifindex in maps.txPort then Redirect(ifindex) else Aborted;
    }

    /** The rule that decides about a parsed frame. */
    method Lookup(parsed: Parsed) returns (key: Option<Key>)
      ensures key == Select(maps.Table(), parsed)
      ensures key.Some? ==> key.value in maps.rules
    {
      match parsed {
        case Tunnel(teid, ueIp, _, _) =>
          if Teid(teid) in maps.rules {
            return Some(Teid(teid));
          }
          if UeIp(ueIp) in maps.rules {
            return Some(UeIp(ueIp));
          }
        case Bare(dst) =>
          if NatIp(dst) in maps.rules && maps.rules[NatIp(dst)].config.action == Rules.ACTION_ENCAP {
            return Some(NatIp(dst));
          }
          if UeIp(dst) in maps.rules && maps.rules[UeIp(dst)].config.action == Rules.ACTION_ENCAP {
            return Some(UeIp(dst));
          }
        case _ =>
      }
      return None;
    }

    /** The action of rule `k` on the packet in the buffer. */
    method Perform(k: Key, c: Rules.Config, ctx: Context, parsed: Parsed, ghost p: Packet) returns (done: Done)
      requires ctx.Valid() && p.frame == ctx.Frame() && p.headroom == ctx.data
      requires parsed == Parse(p.frame) && (parsed.Tunnel? || parsed.Bare?)
      modifies ctx`data, ctx.buf
      ensures ctx.Valid()
      ensures var spec := Act(k, c, p);
              && (done.Sent? <==> spec.Sent?) && (done.Discarded? <==> spec.Discarded?)
              && (done.ToStack? <==> spec.ToStack?)
              && (spec.Sent? ==> ctx.Frame() == spec.frame)
              && (spec.ToStack? ==> ctx.Frame() == old(ctx.Frame()))
    {
      hide Parse, Decap, Encap, Rewrite;
      ParsedLength(p.frame);
      match parsed {
        case Tunnel(_, _, innerSrc, strip) =>
          if c.action == Rules.ACTION_DROP {
            return Discarded;
          } else if c.action == Rules.ACTION_DECAP {
            var ok := ctx.DecapGtpu(c, strip);
            if ok && c.natIp != 0 {
              ok := ctx.NatRewrite(Source, innerSrc, c.natIp);
            }
            return if ok then Sent([]) else Failed;
          } else if c.action == Rules.ACTION_REDIRECT {
            ctx.RewriteEth(c);
            return Sent([]);
          } else if c.action == Rules.ACTION_ENCAP {
            return ToStack;
          }
          return Failed;
        case Bare(dst) =>
          var ok := true;
          if k.NatIp? {
            ok := ctx.NatRewrite(Destination, dst, c.natIp);
          }
          if ok {
            ok := ctx.EncapGtpu(if k.NatIp? then Nr else Plain, c);
          }
          return if ok then Sent([]) else Failed;
        case _ =>
          assert false;
          return Failed;
      }
    }

    lemma ParsedLength(f: seq<byte>)
      requires Parse(f).Tunnel? || Parse(f).Bare?
      ensures |f| >= 34
    {
      if Parse(f).Tunnel? {
        TunnelInFrame(f);
      }
    }

    /** One packet: the verdict, the buffer, the rules and the statistics are those of `Step`. */
    method Process(ctx: Context, now: u64) returns (v: Verdict)
      requires maps.Valid() && ctx.Valid()
      modifies ctx`data, ctx.buf, maps.rules.Values, stats
      ensures ctx.Valid()
      ensures var r := Step(maps.txPort, old(maps.Table()), Packet(old(ctx.Frame()), old(ctx.data), now));
              && v == r.verdict
              && maps.Table() == r.table
              && stats.entries == Bumped(old(stats.entries), r.slot, old(ctx.Len()))
              && (v != Drop ==> ctx.Frame() == r.frame)
    {
      hide Parse, Apply, RuleMaps.Table, Stats.Bump, Context.Frame;
      var len := ctx.Len();
      var parsed := ctx.ParseFrame();
      if parsed.Truncated? {
        return Drop;
      }
      if parsed.Bad? {
        BumpStats(DropSlot, len);
        return Drop;
      }
      var key := Lookup(parsed);
      if key.None? {
        BumpStats(PassSlot, len);
        return Pass;
      }
      v := ApplyRule(key.value, ctx, parsed, len, now);
    }

    /** Counts a packet for rule `k` and in the statistics. */
    method CountBoth(k: Key, slot: Slot, bytes: nat)
      requires maps.Valid() && k in maps.rules
      modifies maps.rules[k], stats
      ensures maps.Table() == old(maps.Table())[k := old(maps.Table())[k].Bumped(bytes)]
      ensures stats.entries == Bumped(old(stats.entries), Some(slot), bytes)
    {
      hide RuleMaps.Table, Bumped;
      CountRule(k, bytes);
      BumpStats(slot, bytes);
    }

    method CountRule(k: Key, bytes: nat)
      requires maps.Valid() && k in maps.rules
      modifies maps.rules[k]
      ensures maps.Table() == old(maps.Table())[k := old(maps.Table())[k].Bumped(bytes)]
    {
      maps.rules[k].BumpRule(bytes);
      assert maps.Table() == old(maps.Table())[k := old(maps.Table())[k].Bumped(bytes)];
    }

    /** The policy of rule `k` for one packet; true means drop. */
    method Enforce(k: Key, now: u64) returns (drop: bool)
      requires maps.Valid() && k in maps.rules
      modifies maps.rules[k]
      ensures var d := Decide(old(maps.Table()), k, now);
              && (drop <==> d.verdict != Policy.Admit)
              && maps.Table() == old(maps.Table())[k := old(maps.Table())[k].(policy := d.state)]
    {
      hide Policy.Enforce;
      drop := maps.rules[k].EnforcePolicy(now);
      assert maps.Table() == old(maps.Table())[k := maps.rules[k].Value()];
    }

    lemma MapTwice(t: Table, k: Key, a: Rule, b: Rule)
      ensures t[k := a][k := b] == t[k := b]
    {
    }

    /** Counts and verdict for the way an action ended. */
    method Conclude(k: Key, done: Done, bytes: nat) returns (v: Verdict)
      requires maps.Valid() && k in maps.rules
      modifies maps.rules[k], stats
      ensures maps.Table() == if done.Sent? || done.Discarded?
                            then old(maps.Table())[k := old(maps.Table())[k].Bumped(bytes)] else old(maps.Table())
      ensures match done
              case Sent(_) =>
                && v == RedirectOut(maps.txPort, maps.rules[k].config.outIfindex)
                && stats.entries == Bumped(old(stats.entries), Some(RedirectSlot), bytes)
              case ToStack => v == Pass && stats.entries == Bumped(old(stats.entries), Some(PassSlot), bytes)
              case _ => v == Drop && stats.entries == Bumped(old(stats.entries), Some(DropSlot), bytes)
    {
      hide Stats.Bump, RuleMaps.Table;
      match done {
        case Sent(_) =>
          CountBoth(k, RedirectSlot, bytes);
          v := RedirectTo(maps.rules[k].config.outIfindex);
        case Discarded =>
          CountBoth(k, DropSlot, bytes);
          v := Drop;
        case ToStack =>
          BumpStats(PassSlot, bytes);
          v := Pass;
        case Failed =>
          BumpStats(DropSlot, bytes);
          v := Drop;
      }
    }

    /** The selected rule decides and acts. */
    method ApplyRule(k: Key, ctx: Context, parsed: Parsed, len: nat, now: u64) returns (v: Verdict)
      requires maps.Valid() && ctx.Valid() && k in maps.rules && len == ctx.Len()
      requires parsed == Parse(ctx.Frame()) && (parsed.Tunnel? || parsed.Bare?)
      modifies ctx`data, ctx.buf, maps.rules.Values, stats
      ensures ctx.Valid()
      ensures var r := Apply(maps.txPort, old(maps.Table()), k, Packet(old(ctx.Frame()), old(ctx.data), now));
              && v == r.verdict
              && maps.Table() == r.table
              && stats.entries == Bumped(old(stats.entries), r.slot, len)
              && (v != Drop ==> ctx.Frame() == r.frame)
    {
      hide Parse, Act, Policy.Enforce, Stats.Bump, Decide, RuleMaps.Table, Context.Frame, Bumped, RedirectOut;
      ghost var p := Packet(ctx.Frame(), ctx.data, now);
      ghost var t := maps.Table();
      var blocked := Enforce(k, now);
      ghost var decided := t[k].(policy := Decide(t, k, now).state);
      MapTwice(t, k, decided, decided.Bumped(len));
      if blocked {
        CountBoth(k, DropSlot, len);
        v := Drop;
      } else {
        var done := Perform(k, maps.rules[k].config, ctx, parsed, p);
        v := Conclude(k, done, len);
      }
    }
  }
}
