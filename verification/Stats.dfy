/**
 Verdict statistics: a per-CPU array of counters that the data plane bumps and
 the control plane sums over all CPUs.
 */
module Stats {
  import opened Bytes

  datatype Result<T> = Ok(value: T) | Error

  const STAT_PASS: u32 := 0
  const STAT_DROP: u32 := 1
  const STAT_REDIRECT: u32 := 3

  /** Packets and bytes of one outcome on one CPU, or over all CPUs. */
  datatype VerdictStat = VerdictStat(packets: u64, bytes: u64) {
    function Plus(packets: nat, bytes: nat): VerdictStat {
      VerdictStat(Wrap64(this.packets + packets), Wrap64(this.bytes + bytes))
    }
  }

  datatype Counters = Counters(pass: VerdictStat, drop: VerdictStat, redirect: VerdictStat)

  /** For each key, one entry per CPU. */
  type PerCpu = map<u32, seq<VerdictStat>>

  /** One bump by a CPU; without an entry nothing happens. */
  function Bump(m: PerCpu, cpu: nat, key: u32, bytes: nat): PerCpu {
    if key in m && cpu < |m[key]| then
      m[key := m[key][cpu := m[key][cpu].Plus(1, bytes)]]
    else m
  }

  function SumPackets(s: seq<VerdictStat>): nat {
    if s == [] then 0 else SumPackets(s[..|s| - 1]) + s[|s| - 1].packets
  }

  function SumBytes(s: seq<VerdictStat>): nat {
    if s == [] then 0 else SumBytes(s[..|s| - 1]) + s[|s| - 1].bytes
  }

  /** What a reader gets for one key: the sums over all CPUs in 64 bits. */
  function Total(s: seq<VerdictStat>): VerdictStat {
    VerdictStat(Wrap64(SumPackets(s)), Wrap64(SumBytes(s)))
  }

  /** The map as the kernel holds it. */
  class StatsMap {
    var entries: PerCpu

    constructor (entries: PerCpu)
      ensures this.entries == entries
    {
      this.entries := entries;
    }

    /** The data plane's bump_stats on the CPU that runs it. */
    method BumpStats(cpu: nat, key: u32, bytes: nat)
      modifies this
      ensures entries == Bump(old(entries), cpu, key, bytes)
    {
      if key in entries && cpu < |entries[key]| {
        var s := entries[key][cpu];
        s := s.(packets := Wrap64(s.packets + 1));
        s := s.(bytes := Wrap64(s.bytes + bytes));
        entries := entries[key := entries[key][cpu := s]];
      }
    }
  }

  /** The control plane's sum over all CPUs, or an error if a key cannot be looked up. */
  method ReadFromMap(m: PerCpu) returns (r: Result<Counters>)
    ensures r.Ok? <==> 0 in m && 1 in m && 3 in m
    ensures r.Ok? ==> r.value == Counters(Total(m[0]), Total(m[1]), Total(m[3]))
  {
    var keys: seq<u32> := [STAT_PASS, STAT_DROP, STAT_REDIRECT];
    var totals := [VerdictStat(0, 0), VerdictStat(0, 0), VerdictStat(0, 0), VerdictStat(0, 0)];
    assert keys[0] == STAT_PASS && keys[1] == STAT_DROP && keys[2] == STAT_REDIRECT;
    for i := 0 to |keys|
      invariant |totals| == 4
      invariant forall j :: 0 <= j < i ==> keys[j] in m && totals[keys[j]] == Total(m[keys[j]])
      invariant forall j :: i <= j < |keys| ==> totals[keys[j]] == VerdictStat(0, 0)
    {
      var key := keys[i];
      if key !in m {
        assert i == 0 || i == 1 || i == 2;
        return Error;
      }
      var perCpu := m[key];
      ghost var before := totals;
      for c := 0 to |perCpu|
        invariant |totals| == 4 && totals == before[key := Total(perCpu[..c])]
      {
        assert perCpu[..c + 1][..c] == perCpu[..c];
        AddMod(SumPackets(perCpu[..c]), perCpu[c].packets);
        AddMod(SumBytes(perCpu[..c]), perCpu[c].bytes);
        totals := totals[key := totals[key].Plus(perCpu[c].packets, perCpu[c].bytes)];
      }
      assert perCpu[..|perCpu|] == perCpu;
    }
    return Ok(Counters(totals[0], totals[1], totals[3]));
  }

  // ----- Any spread over CPUs counts like one counter -----

  /** One counted packet: the CPU it ran on, its outcome and its original length. */
  datatype Event = Event(cpu: nat, key: u32, bytes: nat)

  /** The map after a sequence of counted packets. */
  function Replay(m: PerCpu, es: seq<Event>): PerCpu {
    if es == [] then m
    else
      var e := es[|es| - 1];
      Bump(Replay(m, es[..|es| - 1]), e.cpu, e.key, e.bytes)
  }

  /** One counter for all CPUs. */
  function Sequential(es: seq<Event>, key: u32): VerdictStat {
    if es == [] then VerdictStat(0, 0)
    else
      var before := Sequential(es[..|es| - 1], key);
      if es[|es| - 1].key == key then before.Plus(1, es[|es| - 1].bytes) else before
  }

  /** A freshly loaded map for `cpus` CPUs. */
  ghost predicate Zeroed(m: PerCpu, cpus: nat) {
    && m.Keys == {0, 1, 2, 3}
    && (forall k :: k in m ==> |m[k]| == cpus)
    && (forall k, c :: k in m && 0 <= c < cpus ==> m[k][c] == VerdictStat(0, 0))
  }

  lemma {:induction false} PacketsWithBump(s: seq<VerdictStat>, c: nat, v: VerdictStat, d: nat)
    requires c < |s| && v.packets == (s[c].packets + d) % U64_SIZE
    ensures SumPackets(s[c := v]) % U64_SIZE == (SumPackets(s) % U64_SIZE + d) % U64_SIZE
  {
    var n := |s| - 1;
    if c < n {
      PacketsWithBump(s[..n], c, v, d);
      assert s[c := v][..n] == s[..n][c := v];
      ModSums(SumPackets(s[..n][c := v]), SumPackets(s[..n]), d, s[n].packets);
    } else {
      assert s[c := v][..n] == s[..n];
      ModLast(SumPackets(s[..n]), s[n].packets, d);
    }
  }

  lemma {:induction false} BytesWithBump(s: seq<VerdictStat>, c: nat, v: VerdictStat, d: nat)
    requires c < |s| && v.bytes == (s[c].bytes + d) % U64_SIZE
    ensures SumBytes(s[c := v]) % U64_SIZE == (SumBytes(s) % U64_SIZE + d) % U64_SIZE
  {
    var n := |s| - 1;
    if c < n {
      BytesWithBump(s[..n], c, v, d);
      assert s[c := v][..n] == s[..n][c := v];
      ModSums(SumBytes(s[..n][c := v]), SumBytes(s[..n]), d, s[n].bytes);
    } else {
      assert s[c := v][..n] == s[..n];
      ModLast(SumBytes(s[..n]), s[n].bytes, d);
    }
  }

  /** Bumping one CPU's entry bumps the total. */
  lemma SumsWithBump(s: seq<VerdictStat>, c: nat, bytes: nat)
    requires c < |s|
    ensures Total(s[c := s[c].Plus(1, bytes)]) == Total(s).Plus(1, bytes)
  {
    var v := s[c].Plus(1, bytes);
    PacketsWithBump(s, c, v, 1);
    BytesWithBump(s, c, v, bytes);
  }

  lemma ModSums(x: nat, y: nat, d: nat, z: nat)
    requires x % U64_SIZE == (y % U64_SIZE + d) % U64_SIZE
    ensures (x + z) % U64_SIZE == ((y + z) % U64_SIZE + d) % U64_SIZE
  {
    AddMod(y, d);
    AddMod(x, z);
    AddMod(y + d, z);
    AddMod(y + z, d);
  }

  lemma ModLast(x: nat, y: nat, d: nat)
    ensures (x + (y + d) % U64_SIZE) % U64_SIZE == ((x + y) % U64_SIZE + d) % U64_SIZE
  {
    AddMod(y + d, x);
    AddMod(x + y, d);
  }

  lemma {:induction false} ZeroTotal(s: seq<VerdictStat>)
    requires forall c :: 0 <= c < |s| ==> s[c] == VerdictStat(0, 0)
    ensures SumPackets(s) == 0 && SumBytes(s) == 0 && Total(s) == VerdictStat(0, 0)
  {
    if s != [] {
      ZeroTotal(s[..|s| - 1]);
    }
  }

  /**
   However the packets are spread over CPUs, at quiescence the reader's total for
   every key is that of one counter that saw all of them.
   */
  lemma {:induction false} SpreadCountsSequentially(m: PerCpu, cpus: nat, es: seq<Event>, key: u32)
    requires Zeroed(m, cpus) && key in m
    requires forall e :: e in es ==> e.cpu < cpus && e.key in m
    ensures var r := Replay(m, es);
            && r.Keys == m.Keys && (forall k :: k in m ==> |r[k]| == cpus)
            && Total(r[key]) == Sequential(es, key)
  {
    hide Total;
    if es == [] {
      ZeroTotal(m[key]);
    } else {
      var before := es[..|es| - 1];
      SpreadCountsSequentially(m, cpus, before, key);
      var e := es[|es| - 1];
      if e.key == key {
        SumsWithBump(Replay(m, before)[key], e.cpu, e.bytes);
      }
    }
  }
}
