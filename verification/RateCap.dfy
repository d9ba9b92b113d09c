/** What the rate cap of a rule guarantees over whole runs. */
module RateCap {
  import opened Bytes
  import opened Policy

  /** How many of the first `n` packets arrive in [a, b). */
  ghost function Arrivals(ts: seq<u64>, n: nat, a: nat, b: nat): nat
    requires n <= |ts|
  {
    if n == 0 then 0
    else Arrivals(ts, n - 1, a, b) + if a <= ts[n - 1] < b then 1 else 0
  }

  /** How many of the first `n` packets arrive in [a, b) and are admitted. */
  ghost function AdmittedIn(r: Run, n: nat, a: nat, b: nat): nat
    requires n <= |r.ts|
  {
    if n == 0 then 0
    else AdmittedIn(r, n - 1, a, b)
         + if a <= r.ts[n - 1] < b && r.VerdictAt(n - 1) == Admit then 1 else 0
  }

  lemma {:induction false} AdmittedPrefix(r: Run, more: seq<u64>, n: nat, a: nat, b: nat)
    requires n <= |r.ts|
    ensures AdmittedIn(r.(ts := r.ts + more), n, a, b) == AdmittedIn(r, n, a, b)
  {
    hide Enforce;
    if n > 0 {
      AdmittedPrefix(r, more, n - 1, a, b);
      RunPrefix(r, more, n - 1);
    }
  }

  /** The number of whole or started seconds in `len` nanoseconds. */
  function Seconds(len: nat): nat {
    (len + 999_999_999) / 1_000_000_000
  }

  /** What one evaluation does to the window, for any configuration with a cap. */
  lemma WindowStep(c: Config, s: State, now: u64)
    requires 0 < c.ratePps && s.windowStart <= now && s.windowCount <= c.ratePps
    ensures var d := Enforce(c, s, now);
            && d.state.windowCount <= c.ratePps
            && (d.state.windowStart == s.windowStart || (d.state.windowStart == now >= s.windowStart + NANOS))
            && (d.state.windowStart == s.windowStart ==>
                  d.state.windowCount == s.windowCount + if d.verdict == Admit then 1 else 0)
            && (d.state.windowStart != s.windowStart ==> d.state.windowCount == 1 && d.verdict == Admit)
            && (d.verdict != Blocked ==> now < d.state.windowStart + NANOS)
            && (s.until == 0 == s.windowCount ==> d.verdict == Admit)
  {
    assert Minus64(now, s.windowStart) == now - s.windowStart;
  }

  /**
   The bound kept while packets of [a, b) are counted in windows of one second.
   With `slack` 1 it allows for the packet that opened a window before `a`.
   */
  ghost predicate CapBound(cap: nat, slack: nat, s: State, admitted: nat, a: nat, b: nat)
    requires a < b
  {
    if s.windowStart < a then admitted == 0 || admitted + slack <= s.windowCount
    else if s.windowStart < b then admitted + slack <= (1 + (s.windowStart - a) / NANOS) * cap + s.windowCount
    else admitted + slack <= (Seconds(b - a) + 1) * cap
  }

  lemma MulMono(x: int, y: int, z: nat)
    requires x <= y
    ensures x * z <= y * z
  {
  }

  lemma CapBoundImplies(cap: nat, slack: nat, s: State, admitted: nat, a: nat, b: nat)
    requires a < b && slack <= cap && s.windowCount <= cap && CapBound(cap, slack, s, admitted, a, b)
    ensures admitted + slack <= (Seconds(b - a) + 1) * cap
  {
    if s.windowStart < a {
      MulMono(1, Seconds(b - a) + 1, cap);
    } else if s.windowStart < b {
      var q := (s.windowStart - a) / NANOS;
      MulMono(q + 2, Seconds(b - a) + 1, cap);
      assert (q + 2) * cap == (1 + q) * cap + cap;
    }
  }

  /** A window that opens in [a, b) starts a new term of the bound. */
  lemma CapBoundOpens(cap: nat, slack: nat, s: State, t: State, admitted: nat, a: nat, b: nat)
    requires a < b && slack <= 1 <= cap && s.windowCount <= cap && CapBound(cap, slack, s, admitted, a, b)
    requires t.windowStart >= s.windowStart + NANOS && t.windowCount == 1
    ensures t.windowStart < a ==> s.windowStart < a
    ensures a <= t.windowStart < b ==> CapBound(cap, slack, t, admitted + 1, a, b)
    ensures b <= t.windowStart ==> CapBound(cap, slack, t, admitted, a, b)
  {
    if a <= t.windowStart < b {
      var q := (t.windowStart - a) / NANOS;
      if s.windowStart < a {
        MulMono(1, 1 + q, cap);
      } else {
        var p := (s.windowStart - a) / NANOS;
        MulMono(p + 2, 1 + q, cap);
        assert (p + 2) * cap == (1 + p) * cap + cap;
      }
    } else if b <= t.windowStart {
      CapBoundImplies(cap, slack, s, admitted, a, b);
    }
  }

  /** One packet keeps the bound, if a window from before `a` that it joins was opened by another. */
  lemma CapBoundStep(c: Config, slack: nat, s: State, now: u64, admitted: nat, a: nat, b: nat)
    requires a < b && slack <= 1 && 0 < c.ratePps && s.windowStart <= now && s.windowCount <= c.ratePps
    requires CapBound(c.ratePps, slack, s, admitted, a, b)
    requires now < a ==> admitted == 0
    requires s.windowStart < a <= now < s.windowStart + NANOS ==> slack <= s.windowCount
    ensures var d := Enforce(c, s, now);
            CapBound(c.ratePps, slack, d.state,
                     admitted + (if a <= now < b && d.verdict == Admit then 1 else 0), a, b)
  {
    hide Enforce;
    WindowStep(c, s, now);
    var t := Enforce(c, s, now).state;
    if t.windowStart != s.windowStart {
      CapBoundOpens(c.ratePps, slack, s, t, admitted, a, b);
    }
  }

  /**
   No packet from `a` on is the first of the window at clock time 0, which every
   rule is written with: the first packet opens a window, or arrives before `a`.
   */
  ghost predicate Opened(ts: seq<u64>, a: nat) {
    ts == [] || ts[0] >= NANOS || ts[0] < a || a == 0
  }

  lemma {:induction false} CapInvariant(r: Run, slack: nat, n: nat, a: nat, b: nat)
    requires r.Fresh() && 0 < r.c.ratePps && n <= |r.ts| && a < b
    requires slack == 0 || (slack == 1 && Opened(r.ts, a))
    ensures (if n == 0 then 0 else 1) <= r.At(n).windowCount <= r.c.ratePps
    ensures r.At(n).windowStart <= if n == 0 then 0 else r.ts[n - 1]
    ensures CapBound(r.c.ratePps, slack, r.At(n), AdmittedIn(r, n, a, b), a, b)
    ensures n == 0 || r.ts[n - 1] < a ==> AdmittedIn(r, n, a, b) == 0
  {
    hide Enforce, CapBound;
    if n == 0 {
      InitialBound(r.c.ratePps, slack, a, b);
    } else {
      CapInvariant(r, slack, n - 1, a, b);
      WindowStep(r.c, r.At(n - 1), r.ts[n - 1]);
      CapBoundStep(r.c, slack, r.At(n - 1), r.ts[n - 1], AdmittedIn(r, n - 1, a, b), a, b);
    }
  }

  lemma InitialBound(cap: nat, slack: nat, a: nat, b: nat)
    requires a < b && slack <= 1 <= cap
    ensures CapBound(cap, slack, FRESH, 0, a, b)
  {
  }

  /**
   In every run of a capped rule, every interval [a, b) of the clock holds at
   most (seconds + 1) * cap admitted packets, and one less unless its first
   packet was the first of the window at clock time 0.
   */
  lemma RateCapHolds(r: Run, a: nat, b: nat)
    requires r.Fresh() && 0 < r.c.ratePps && a < b
    ensures AdmittedIn(r, |r.ts|, a, b) <= (Seconds(b - a) + 1) * r.c.ratePps
    ensures Opened(r.ts, a) ==> AdmittedIn(r, |r.ts|, a, b) <= (Seconds(b - a) + 1) * r.c.ratePps - 1
  {
    hide CapBound;
    var n := |r.ts|;
    var slack := if Opened(r.ts, a) then 1 else 0;
    CapInvariant(r, slack, n, a, b);
    CapBoundImplies(r.c.ratePps, slack, r.At(n), AdmittedIn(r, n, a, b), a, b);
  }

  /** Hence at most twice the cap less one in any one second, but for the first second of the clock. */
  lemma TwiceTheCapPerSecond(r: Run, a: nat)
    requires r.Fresh() && 0 < r.c.ratePps
    ensures AdmittedIn(r, |r.ts|, a, a + NANOS) <= 2 * r.c.ratePps
    ensures Opened(r.ts, a) ==> AdmittedIn(r, |r.ts|, a, a + NANOS) <= 2 * r.c.ratePps - 1
  {
    RateCapHolds(r, a, a + NANOS);
  }

  // ----- The bounds are reached -----

  /**
   `early` packets at `w`, the rest of the cap at the end of the second that
   starts there, and another `cap` packets a nanosecond later.
   */
  ghost function Burst(cap: nat, w: nat, early: nat): seq<u64>
    requires w < 0x4000_0000_0000_0000
  {
    seq(2 * cap, i => if i < early then w else if i < cap then w + NANOS - 1 else w + NANOS)
  }

  /** Where the policy is after `n` packets of the burst. */
  function BurstState(c: Config, w: nat, n: nat): State
    requires w < 0x4000_0000_0000_0000 && n <= 2 * c.ratePps
  {
    if n == 0 then FRESH
    else if n <= c.ratePps then State(n, w, 0, 0, false, 0)
    else State(n - c.ratePps, w + NANOS, 0, 0, false, 0)
  }

  /** The window at `w` is the one at clock time 0, or its first packet opens it. */
  predicate BurstWindow(c: Config, w: nat, early: nat) {
    && 0 < c.ratePps && w < 0x4000_0000_0000_0000
    && if early == 0 then w == 0 else early == 1 && w >= NANOS
  }

  lemma BurstStep(c: Config, w: nat, early: nat, n: nat)
    requires BurstWindow(c, w, early) && n < 2 * c.ratePps
    ensures Enforce(c, BurstState(c, w, n), Burst(c.ratePps, w, early)[n])
            == Decision(Admit, BurstState(c, w, n + 1))
  {
  }

  lemma {:induction false} BurstAdmitted(r: Run, w: nat, early: nat, a: nat, n: nat)
    requires BurstWindow(r.c, w, early) && r.start == FRESH && w < a < w + NANOS
    requires r.ts == Burst(r.c.ratePps, w, early) && n <= |r.ts|
    ensures AdmittedIn(r, n, a, a + NANOS) == if n < early then 0 else n - early
    ensures r.At(n) == BurstState(r.c, w, n)
  {
    hide Enforce;
    if n > 0 {
      hide BurstState;
      BurstAdmitted(r, w, early, a, n - 1);
      BurstStep(r.c, w, early, n - 1);
    }
  }

  /** In some run of a rule `c` the second that starts at `a` admits `m` packets of `ts`. */
  ghost predicate Reaches(c: Config, ts: seq<u64>, a: nat, m: nat) {
    var r := Run(c, FRESH, ts);
    r.Fresh() && AdmittedIn(r, |ts|, a, a + 1_000_000_000) == m
  }

  /**
   Twice the cap is admitted in a second exactly if that second starts within the
   first one of the clock: then `cap` packets can use up the window at time 0, and
   `cap` more the next.
   */
  lemma TwiceTheCapIff(c: Config, a: nat)
    requires 0 < c.ratePps
    ensures (exists ts: seq<u64> :: Reaches(c, ts, a, 2 * c.ratePps)) <==> 0 < a < NANOS
  {
    hide AdmittedIn, Enforce;
    if 0 < a < NANOS {
      var r := Run(c, FRESH, Burst(c.ratePps, 0, 0));
      BurstAdmitted(r, 0, 0, a, |r.ts|);
      assert Reaches(c, r.ts, a, 2 * c.ratePps);
    }
    forall ts: seq<u64> | Reaches(c, ts, a, 2 * c.ratePps)
      ensures 0 < a < NANOS
    {
      TwiceTheCapPerSecond(Run(c, FRESH, ts), a);
    }
  }

  /**
   Twice the cap less one is admitted at any later time: one packet opens a window
   at `w`, and the burst follows at its end.
   */
  lemma LateBurstAdmitted(c: Config, w: nat)
    requires 0 < c.ratePps && NANOS <= w < 0x4000_0000_0000_0000
    ensures var ts := Burst(c.ratePps, w, 1);
            |ts| > 0 && ts[0] == w && Reaches(c, ts, w + 1, 2 * c.ratePps - 1)
  {
    hide Enforce;
    var r := Run(c, FRESH, Burst(c.ratePps, w, 1));
    BurstAdmitted(r, w, 1, w + 1, |r.ts|);
  }

  // ----- A clock that is behind -----

  /**
   The age of a window is an unsigned difference. A packet stamped before its window
   began, as by another CPU, therefore finds the window over - unless the difference
   wraps all the way round - and is admitted into a new one that begins before it.
   */
  lemma EarlierClockOpensWindow(c: Config, s: State, now: u64)
    requires 0 < c.ratePps && s.until == 0 && now < s.windowStart
    ensures var d := Enforce(c, s, now);
            if s.windowStart - now <= 0x1_0000_0000_0000_0000 - 1_000_000_000
            then d.verdict == Admit && d.state.windowStart == now && d.state.windowCount == 1
            else d.state.windowStart == s.windowStart && (d.verdict == Admit <==> s.windowCount < c.ratePps)
  {
    assert Minus64(now, s.windowStart) == now - s.windowStart + U64_SIZE;
  }

  // ----- No false drops -----

  /** The arrivals in the second that starts at `a`. */
  ghost function InSecond(ts: seq<u64>, a: nat): nat {
    Arrivals(ts, |ts|, a, a + 1_000_000_000)
  }

  /** No interval of one second holds more than `cap` arrivals. */
  ghost predicate Conforming(ts: seq<u64>, cap: nat) {
    forall a: nat :: InSecond(ts, a) <= cap
  }

  lemma {:induction false} ArrivalsGrow(ts: seq<u64>, m: nat, n: nat, a: nat, b: nat)
    requires m <= n <= |ts|
    ensures Arrivals(ts, m, a, b) <= Arrivals(ts, n, a, b)
  {
    if m < n {
      ArrivalsGrow(ts, m, n - 1, a, b);
    }
  }

  lemma {:induction false} NoViolation(r: Run, n: nat)
    requires r.Fresh() && 0 < r.c.ratePps && Conforming(r.ts, r.c.ratePps) && n <= |r.ts|
    ensures var s := r.At(n);
            && !s.violated && s.streak == 0 && s.until == 0 && s.rateDrops == 0
            && s.windowStart <= (if n == 0 then 0 else r.ts[n - 1])
            && s.windowCount <= Arrivals(r.ts, n, s.windowStart, s.windowStart + NANOS)
            && s.windowCount <= r.c.ratePps
    ensures n > 0 ==> r.VerdictAt(n - 1) == Admit
  {
    if n > 0 {
      NoViolation(r, n - 1);
      var s, now := r.At(n - 1), r.ts[n - 1];
      assert Minus64(now, s.windowStart) == now - s.windowStart;
      var w := s.windowStart;
      assert r.VerdictAt(n - 1) == Enforce(r.c, s, now).verdict;
      if now < w + NANOS {
        ArrivalsGrow(r.ts, n, |r.ts|, w, w + NANOS);
        assert InSecond(r.ts, w) <= r.c.ratePps;
      } else {
        assert r.At(n) == State(1, now, 0, 0, false, 0);
      }
    }
  }

  /** Traffic within the cap is never dropped and never quarantined, however long the run. */
  lemma NoFalseDrops(r: Run)
    requires r.Fresh() && 0 < r.c.ratePps && Conforming(r.ts, r.c.ratePps)
    ensures forall i :: 0 <= i < |r.ts| ==> r.VerdictAt(i) == Admit && !r.Trips(i)
  {
    forall i | 0 <= i < |r.ts|
      ensures r.VerdictAt(i) == Admit && !r.Trips(i)
    {
      NoViolation(r, i + 1);
    }
  }
}
