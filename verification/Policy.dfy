/**
 The per-rule policy of the data plane: a fixed one-second window packet cap
 with autonomous quarantine, driven only by packet arrivals and a clock.

 `Enforce` is one evaluation of the policy; a `Run` feeds it the arrival times
 of any number of packets. What a run guarantees is stated in the modules
 `RateCap` and `Quarantine`.
 */
module Policy {
  import opened Bytes

  const NANOS: nat := 1_000_000_000

  /** The part of a rule that the control plane configures. */
  datatype Config = Config(ratePps: u32, threshold: u32, seconds: u32) {
    /** What rule validation demands: a configured quarantine has a duration. */
    predicate Valid() {
      threshold != 0 ==> seconds != 0
    }
  }

  /** The part of a rule that only the data plane changes. */
  datatype State = State(
    windowCount: u32,
    windowStart: u64,
    rateDrops: u64,
    streak: u32,
    violated: bool,
    until: u64)

  /** The state the control plane writes with a rule. */
  const FRESH: State := State(0, 0, 0, 0, false, 0)

  datatype Verdict = Admit | RateDrop | Blocked

  datatype Decision = Decision(verdict: Verdict, state: State)

  /** Unsigned 64-bit subtraction. */
  function Minus64(a: u64, b: u64): u64 {
    (a - b) % U64_SIZE
  }

  /** Scores the window that ended and opens a new one at `now`. */
  function Roll(c: Config, s: State, now: u64): State {
    var streak: u32 := if s.violated then (s.streak + 1) % U32_SIZE else 0;
    var next := s.(windowStart := now, windowCount := 0, violated := false);
    if s.violated && c.threshold != 0 && streak >= c.threshold then
      next.(until := (now + c.seconds * NANOS) % U64_SIZE, streak := 0)
    else
      next.(streak := streak)
  }

  /** Charges one packet against the current window. */
  function Charge(c: Config, s: State): Decision {
    if s.windowCount >= c.ratePps then
      Decision(RateDrop, s.(violated := true, rateDrops := Wrap64(s.rateDrops + 1)))
    else
      Decision(Admit, s.(windowCount := s.windowCount + 1))
  }

  /** One evaluation of the policy for a packet that arrives at `now`. */
  function Enforce(c: Config, s: State, now: u64): Decision {
    if s.until != 0 && now < s.until then
      Decision(Blocked, s)
    else
      var released := if s.until != 0 then s.(until := 0, streak := 0) else s;
      if c.ratePps == 0 then
        Decision(Admit, released)
      else if Minus64(now, released.windowStart) >= NANOS then
        Charge(c, Roll(c, released, now))
      else
        Charge(c, released)
  }

  /** Arrivals in clock order, early enough that no deadline overflows 64 bits. */
  ghost predicate Clock(ts: seq<u64>) {
    && (forall i, j :: 0 <= i <= j < |ts| ==> ts[i] <= ts[j])
    && (forall i :: 0 <= i < |ts| ==> ts[i] < 0x8000_0000_0000_0000)
  }

  /** The policy of one rule, started in `start`, over packets arriving at `ts`. */
  datatype Run = Run(c: Config, start: State, ts: seq<u64>) {
    /** The state before packet `n`, which is the state after `n` packets. */
    ghost function At(n: nat): State
      requires n <= |ts|
    {
      if n == 0 then start else Enforce(c, At(n - 1), ts[n - 1]).state
    }

    ghost function VerdictAt(i: nat): Verdict
      requires i < |ts|
    {
      Enforce(c, At(i), ts[i]).verdict
    }

    /** Packet `i` opens a window. */
    ghost predicate Opens(i: nat)
      requires i < |ts|
    {
      At(i + 1).windowStart != At(i).windowStart
    }

    /** Packet `i` puts the rule into quarantine. */
    ghost predicate Trips(i: nat)
      requires i < |ts|
    {
      At(i + 1).until != 0 && At(i + 1).until != At(i).until
    }

    /** A window begins with packet `i`: it opens one, or it is the first of the run. */
    ghost predicate Begins(i: nat)
      requires i < |ts|
    {
      i == 0 || Opens(i)
    }

    /** The clock value from which the window of packet `i` is measured. */
    ghost function WindowTime(i: nat): u64
      requires i < |ts|
    {
      At(i + 1).windowStart
    }

    /** How many of the packets lo, .., hi-1 are admitted. */
    ghost function Admits(lo: nat, hi: nat): nat
      requires lo <= hi <= |ts|
    {
      if lo == hi then 0
      else Admits(lo, hi - 1) + if VerdictAt(hi - 1) == Admit then 1 else 0
    }

    /** One of the packets lo, .., hi-1 is dropped by the rate cap. */
    ghost predicate DropsIn(lo: nat, hi: nat)
      requires lo <= hi <= |ts|
    {
      exists i :: lo <= i < hi && VerdictAt(i) == RateDrop
    }

    /** A run of a newly written rule. */
    ghost predicate Fresh() {
      start == FRESH && Clock(ts)
    }
  }

  /** What holds of a rule after every packet; `last` is the latest arrival. */
  ghost predicate Invariant(c: Config, s: State, last: nat) {
    && s.windowStart <= last
    && s.windowCount <= c.ratePps
    && (s.violated ==> 0 < c.ratePps == s.windowCount)
    && (c.threshold != 0 ==> s.streak < c.threshold)
    && (s.until != 0 ==>
          && 0 < c.ratePps && 0 < c.threshold
          && s.until == s.windowStart + c.seconds * NANOS
          && s.windowCount == 1 && s.streak == 0 && !s.violated)
  }

  lemma EnforceKeepsInvariant(c: Config, s: State, last: nat, now: u64)
    requires c.Valid() && Invariant(c, s, last)
    requires last <= now < 0x8000_0000_0000_0000
    ensures Invariant(c, Enforce(c, s, now).state, now)
  {
    assert Minus64(now, s.windowStart) == now - s.windowStart;
    assert c.seconds * NANOS < 0x1_0000_0000 * NANOS;
  }

  lemma {:induction false} RunKeepsInvariant(r: Run, n: nat)
    requires r.c.Valid() && r.Fresh() && n <= |r.ts|
    ensures Invariant(r.c, r.At(n), if n == 0 then 0 else r.ts[n - 1])
  {
    if n > 0 {
      RunKeepsInvariant(r, n - 1);
      EnforceKeepsInvariant(r.c, r.At(n - 1), if n == 1 then 0 else r.ts[n - 2], r.ts[n - 1]);
    }
  }

  /** A run only looks at the arrivals it has seen. */
  lemma {:induction false} RunPrefix(r: Run, more: seq<u64>, n: nat)
    requires n <= |r.ts|
    ensures r.(ts := r.ts + more).At(n) == r.At(n)
  {
    if n > 0 {
      RunPrefix(r, more, n - 1);
    }
  }
}
