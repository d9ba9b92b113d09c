/**
 When the documented ceiling - at most `ratePps` admitted packets in any one
 second - is met. The condition is on arrivals alone: windows are read off the
 arrival times, and a packet's rank in its window says whether it fits the cap.
 */
module Ceiling {
  import opened Bytes
  import opened Policy
  import RateCap

  /** The time from which the window of packet `i` runs. */
  ghost function Base(ts: seq<u64>, i: nat): nat
    requires i < |ts|
  {
    var before := if i == 0 then 0 else Base(ts, i - 1);
    if ts[i] >= before + 1_000_000_000 then ts[i] else before
  }

  /** The first packet of the window of packet `i`. */
  ghost function Head(ts: seq<u64>, i: nat): (h: nat)
    requires i < |ts|
    ensures h <= i
  {
    if i == 0 || ts[i] >= Base(ts, i - 1) + 1_000_000_000 then i else Head(ts, i - 1)
  }

  /** Packet `i` is among the first `cap` of its window. */
  ghost predicate Fits(ts: seq<u64>, cap: nat, i: nat)
    requires i < |ts|
  {
    i - Head(ts, i) < cap
  }

  function Min(x: nat, y: nat): nat {
    if x <= y then x else y
  }

  /**
   Packet `i` is among the first `cap` of a window, and packet `j` of the next
   window is the one that, counting on from `i`, exceeds the cap by one. If the
   earlier window is full, these are packets of the same rank in their windows.
   */
  ghost predicate Rivals(ts: seq<u64>, cap: nat, i: nat, j: nat)
    requires i < |ts| && j < |ts|
  {
    var a, b := Head(ts, i), Head(ts, j);
    && a < b && Head(ts, b - 1) == a
    && var e := Min(a + cap, b);
       i < e && j == b + cap - (e - i)
  }

  /** Rivals in successive windows are at least a second apart. */
  ghost predicate Spaced(ts: seq<u64>, cap: nat) {
    forall i, j :: 0 <= i < |ts| && 0 <= j < |ts| && Rivals(ts, cap, i, j) ==> ts[j] >= (ts[i] as int) + 1_000_000_000
  }

  /** At most the cap is admitted in any one second. */
  ghost predicate CeilingMet(r: Run) {
    forall a: nat :: InSecond(r, a) <= r.c.ratePps
  }

  ghost function InSecond(r: Run, a: nat): nat {
    RateCap.AdmittedIn(r, |r.ts|, a, a + 1_000_000_000)
  }

  // ----- Windows of arrivals -----

  lemma {:induction false} WindowShape(ts: seq<u64>, i: nat)
    requires Clock(ts) && i < |ts|
    ensures var h := Head(ts, i);
            && Head(ts, h) == h && Base(ts, h) == Base(ts, i)
            && Base(ts, i) <= ts[i] < Base(ts, i) + NANOS
            && (h > 0 ==> Base(ts, i) == ts[h] >= Base(ts, h - 1) + NANOS)
            && (forall p :: h <= p <= i ==> Head(ts, p) == h)
  {
    if i > 0 {
      WindowShape(ts, i - 1);
    }
  }

  /** Two packets less than a second apart lie in the same window or in successive ones. */
  lemma NearPackets(ts: seq<u64>, i: nat, j: nat)
    requires Clock(ts) && i <= j < |ts| && ts[j] < ts[i] + NANOS
    ensures var b := Head(ts, j);
            b <= i || (Head(ts, b - 1) == Head(ts, i))
  {
    var b := Head(ts, j);
    WindowShape(ts, j);
    if i < b {
      var m := Head(ts, b - 1);
      WindowShape(ts, b - 1);
      WindowShape(ts, i);
    }
  }

  /** How many of the packets before `n` are among the first `cap` of their windows. */
  ghost function Kept(ts: seq<u64>, cap: nat, n: nat): nat
    requires n <= |ts|
  {
    if n == 0 then 0 else Kept(ts, cap, n - 1) + if Fits(ts, cap, n - 1) then 1 else 0
  }

  lemma {:induction false} KeptGrows(ts: seq<u64>, cap: nat, m: nat, n: nat)
    requires m <= n <= |ts|
    ensures Kept(ts, cap, m) <= Kept(ts, cap, n)
  {
    if m < n {
      KeptGrows(ts, cap, m, n - 1);
    }
  }

  /** Within one window the first `cap` are kept. */
  lemma {:induction false} KeptInWindow(ts: seq<u64>, cap: nat, h: nat, x: nat, y: nat)
    requires h <= x <= y <= |ts|
    requires forall p :: x <= p < y ==> Head(ts, p) == h
    ensures Kept(ts, cap, y) == Kept(ts, cap, x) + Min(y, h + cap) - Min(x, h + cap)
  {
    if x < y {
      KeptInWindow(ts, cap, h, x, y - 1);
    }
  }

  // ----- The policy without quarantine keeps exactly the packets that fit -----

  /** One evaluation without quarantine. */
  lemma EnforceWithoutQuarantine(c: Config, s: State, now: u64)
    requires 0 < c.ratePps && c.threshold == 0 && s.until == 0
    requires s.windowStart <= now && s.windowCount <= c.ratePps
    ensures var d := Enforce(c, s, now); var opens := now >= s.windowStart + NANOS;
            && d.state.until == 0
            && d.state.windowStart == (if opens then now else s.windowStart)
            && (d.verdict == Admit <==> opens || s.windowCount < c.ratePps)
            && d.state.windowCount == if opens then 1 else Min(c.ratePps, s.windowCount + 1)
  {
    assert Minus64(now, s.windowStart) == now - s.windowStart;
  }

  lemma {:induction false} AdmitIffFits(r: Run, n: nat)
    requires r.Fresh() && 0 < r.c.ratePps && r.c.threshold == 0 && 0 < n <= |r.ts|
    ensures var s := r.At(n);
            && s.until == 0 && s.windowStart == Base(r.ts, n - 1)
            && s.windowCount == Min(r.c.ratePps, n - Head(r.ts, n - 1))
    ensures r.VerdictAt(n - 1) == Admit <==> Fits(r.ts, r.c.ratePps, n - 1)
  {
    hide Enforce;
    if n > 1 {
      AdmitIffFits(r, n - 1);
      WindowShape(r.ts, n - 2);
    }
    EnforceWithoutQuarantine(r.c, r.At(n - 1), r.ts[n - 1]);
  }

  /** The packets from this one on arrive at `x` or later. */
  ghost function From(ts: seq<u64>, x: nat, n: nat): (k: nat)
    requires Clock(ts) && n <= |ts|
    ensures k <= n
    ensures forall i :: 0 <= i < n ==> (i < k <==> ts[i] < x)
  {
    if n == 0 then 0 else if ts[n - 1] < x then n else From(ts, x, n - 1)
  }

  lemma FromMonotone(ts: seq<u64>, a: nat, b: nat)
    requires Clock(ts) && a <= b
    ensures From(ts, a, |ts|) <= From(ts, b, |ts|)
  {
    hide From;
    var lo, hi := From(ts, a, |ts|), From(ts, b, |ts|);
    assert lo > 0 ==> ts[lo - 1] < a;
  }

  lemma AdmittedStep(r: Run, n: nat, a: nat, b: nat)
    requires r.Fresh() && 0 < r.c.ratePps && r.c.threshold == 0 && 0 < n <= |r.ts|
    ensures RateCap.AdmittedIn(r, n, a, b) == RateCap.AdmittedIn(r, n - 1, a, b)
            + if a <= r.ts[n - 1] < b then Kept(r.ts, r.c.ratePps, n) - Kept(r.ts, r.c.ratePps, n - 1) else 0
  {
    hide Enforce, Fits, Head, Clock;
    AdmitIffFits(r, n);
  }

  /** What a stretch of the clock admits, counted by the packets `lo`, .., `hi - 1` that fall into it. */
  lemma {:induction false} AdmittedIsKept(r: Run, n: nat, a: nat, b: nat, lo: nat, hi: nat)
    requires r.Fresh() && 0 < r.c.ratePps && r.c.threshold == 0 && n <= |r.ts| && lo <= hi
    requires forall i :: 0 <= i < n ==> (a <= r.ts[i] < b <==> lo <= i < hi)
    ensures RateCap.AdmittedIn(r, n, a, b)
            == Kept(r.ts, r.c.ratePps, Min(n, hi)) - Kept(r.ts, r.c.ratePps, Min(n, lo))
  {
    if n > 0 {
      hide Enforce, Fits, Head, Clock, Kept;
      AdmittedIsKept(r, n - 1, a, b, lo, hi);
      AdmittedStep(r, n, a, b);
      assert a <= r.ts[n - 1] < b <==> lo <= n - 1 < hi;
    }
  }

  lemma InSecondIsKept(r: Run, a: nat)
    requires r.Fresh() && 0 < r.c.ratePps && r.c.threshold == 0
    ensures var lo, hi := From(r.ts, a, |r.ts|), From(r.ts, a + NANOS, |r.ts|);
            lo <= hi && InSecond(r, a) == Kept(r.ts, r.c.ratePps, hi) - Kept(r.ts, r.c.ratePps, lo)
  {
    hide Kept, RateCap.AdmittedIn, From;
    var lo, hi := From(r.ts, a, |r.ts|), From(r.ts, a + NANOS, |r.ts|);
    FromMonotone(r.ts, a, a + NANOS);
    AdmittedIsKept(r, |r.ts|, a, a + NANOS, lo, hi);
  }

  /** The packets from `i` to `j` are kept: those left of one window and those used of the next. */
  lemma KeptBetween(ts: seq<u64>, cap: nat, i: nat, j: nat)
    requires Clock(ts) && i <= j < |ts| && Fits(ts, cap, i) && Fits(ts, cap, j)
    requires var b := Head(ts, j); b <= i || Head(ts, b - 1) == Head(ts, i)
    ensures var a, b := Head(ts, i), Head(ts, j);
            Kept(ts, cap, j + 1) - Kept(ts, cap, i)
            == if b <= i then j + 1 - i else (Min(a + cap, b) - i) + (j + 1 - b)
  {
    hide Head, Base, Kept, Clock;
    var a, b := Head(ts, i), Head(ts, j);
    WindowShape(ts, j);
    if b <= i {
      KeptInWindow(ts, cap, b, i, j + 1);
    } else {
      WindowShape(ts, b - 1);
      KeptInWindow(ts, cap, a, i, b);
      KeptInWindow(ts, cap, b, b, j + 1);
    }
  }

  /** If two kept packets less than a second apart enclose too many others, two of these are rivals. */
  lemma CrowdHasRivals(ts: seq<u64>, cap: nat, i: nat, j: nat)
    requires Clock(ts) && 0 < cap && i <= j < |ts| && ts[j] < ts[i] + NANOS
    requires Fits(ts, cap, i) && Fits(ts, cap, j)
    requires Kept(ts, cap, j + 1) - Kept(ts, cap, i) > cap
    ensures exists k :: i <= k <= j && Rivals(ts, cap, i, k)
  {
    hide Head, Base, Kept, Clock;
    NearPackets(ts, i, j);
    KeptBetween(ts, cap, i, j);
    WindowShape(ts, j);
    WindowShape(ts, i);
    var a, b := Head(ts, i), Head(ts, j);
    var k := b + cap - (Min(a + cap, b) - i);
    assert Rivals(ts, cap, i, k);
  }

  /** With rivals spaced, any stretch of less than a second keeps at most the cap. */
  lemma {:induction false} SpacedKeepsFew(ts: seq<u64>, cap: nat, lo: nat, hi: nat)
    requires Clock(ts) && 0 < cap && Spaced(ts, cap)
    requires lo <= hi <= |ts| && (lo < hi ==> ts[hi - 1] < ts[lo] + NANOS)
    ensures Kept(ts, cap, hi) - Kept(ts, cap, lo) <= cap
    decreases hi - lo
  {
    hide Fits, Rivals;
    if lo < hi {
      if !Fits(ts, cap, lo) {
        assert Kept(ts, cap, lo + 1) == Kept(ts, cap, lo);
        SpacedKeepsFew(ts, cap, lo + 1, hi);
      } else if !Fits(ts, cap, hi - 1) {
        SpacedKeepsFew(ts, cap, lo, hi - 1);
      } else if Kept(ts, cap, hi) - Kept(ts, cap, lo) > cap {
        CrowdHasRivals(ts, cap, lo, hi - 1);
      }
    }
  }

  lemma SpacedMeets(r: Run, a: nat)
    requires r.Fresh() && 0 < r.c.ratePps && r.c.threshold == 0 && Spaced(r.ts, r.c.ratePps)
    ensures InSecond(r, a) <= r.c.ratePps
  {
    var n := |r.ts|;
    var lo, hi := From(r.ts, a, n), From(r.ts, a + NANOS, n);
    InSecondIsKept(r, a);
    SpacedKeepsFew(r.ts, r.c.ratePps, lo, hi);
  }

  /** Rivals and what lies between them are one more than the cap. */
  lemma RivalsExceed(ts: seq<u64>, cap: nat, i: nat, j: nat)
    requires Clock(ts) && 0 < cap && i < |ts| && j < |ts| && Rivals(ts, cap, i, j)
    ensures i < j && Kept(ts, cap, j + 1) - Kept(ts, cap, i) == cap + 1
  {
    hide Head, Base, Kept, Clock;
    KeptBetween(ts, cap, i, j);
  }

  lemma MetSpaces(r: Run, i: nat, j: nat)
    requires r.Fresh() && 0 < r.c.ratePps && r.c.threshold == 0
    requires i < |r.ts| && j < |r.ts| && Rivals(r.ts, r.c.ratePps, i, j)
    requires InSecond(r, r.ts[i]) <= r.c.ratePps
    ensures r.ts[j] >= r.ts[i] + NANOS
  {
    hide Enforce, From, Kept, RateCap.AdmittedIn;
    var ts, cap := r.ts, r.c.ratePps;
    if ts[j] < ts[i] + NANOS {
      RivalsExceed(ts, cap, i, j);
      var lo, hi := From(ts, ts[i], |ts|), From(ts, ts[i] + NANOS, |ts|);
      InSecondIsKept(r, ts[i]);
      KeptGrows(ts, cap, lo, i);
      KeptGrows(ts, cap, j + 1, hi);
    }
  }

  /**
   Without quarantine a run meets the ceiling exactly when rivals in successive
   windows of its arrivals are at least a second apart.
   */
  lemma CeilingMetIff(r: Run)
    requires r.Fresh() && 0 < r.c.ratePps && r.c.threshold == 0
    ensures CeilingMet(r) <==> Spaced(r.ts, r.c.ratePps)
  {
    if CeilingMet(r) {
      forall i, j | 0 <= i < |r.ts| && 0 <= j < |r.ts| && Rivals(r.ts, r.c.ratePps, i, j)
        ensures r.ts[j] >= r.ts[i] + NANOS
      {
        assert InSecond(r, r.ts[i]) <= r.c.ratePps;
        MetSpaces(r, i, j);
      }
    }
    if Spaced(r.ts, r.c.ratePps) {
      forall a: nat
        ensures InSecond(r, a) <= r.c.ratePps
      {
        SpacedMeets(r, a);
      }
    }
  }

  /**
   Of the rules that see their first packet after the first second of the clock,
   those with a cap of one packet meet the ceiling in every run, and no others.
   */
  lemma CeilingAlwaysMetIff(c: Config)
    requires 0 < c.ratePps
    ensures (forall r: Run :: r.c == c && r.Fresh() && (r.ts == [] || r.ts[0] >= NANOS) ==> CeilingMet(r))
        <==> c.ratePps == 1
  {
    hide Enforce, RateCap.AdmittedIn, RateCap.Burst;
    if c.ratePps == 1 {
      forall r: Run | r.c == c && r.Fresh() && (r.ts == [] || r.ts[0] >= NANOS)
        ensures CeilingMet(r)
      {
        forall a: nat
          ensures InSecond(r, a) <= r.c.ratePps
        {
          RateCap.TwiceTheCapPerSecond(r, a);
        }
      }
    } else {
      var r := Run(c, FRESH, RateCap.Burst(c.ratePps, NANOS, 1));
      RateCap.LateBurstAdmitted(c, NANOS);
      assert InSecond(r, NANOS + 1) > c.ratePps;
    }
  }

  // ----- With quarantine -----

  /** The arrivals among the first `n` that no quarantine blocks. */
  ghost function Unblocked(r: Run, n: nat): (ts: seq<u64>)
    requires n <= |r.ts|
    ensures |ts| <= n
  {
    if n == 0 then []
    else Unblocked(r, n - 1) + if r.VerdictAt(n - 1) == Blocked then [] else [r.ts[n - 1]]
  }

  lemma {:induction false} UnblockedClock(r: Run, n: nat)
    requires Clock(r.ts) && n <= |r.ts|
    ensures var ts := Unblocked(r, n);
            Clock(ts) && forall i :: 0 <= i < |ts| ==> n > 0 && ts[i] <= r.ts[n - 1]
  {
    if n > 0 {
      hide Enforce;
      UnblockedClock(r, n - 1);
      var before := Unblocked(r, n - 1);
      assert n > 1 ==> r.ts[n - 2] <= r.ts[n - 1];
      assert forall i :: 0 <= i < |before| ==> before[i] <= r.ts[n - 1];
    }
  }

  /** The same rule without quarantine, over the arrivals that are not blocked. */
  ghost function Plain(r: Run, n: nat): Run
    requires n <= |r.ts|
  {
    Run(r.c.(threshold := 0), FRESH, Unblocked(r, n))
  }

  /** The two states agree on the current window. */
  ghost predicate SameWindow(s: State, t: State) {
    s.windowStart == t.windowStart && s.windowCount == t.windowCount && t.until == 0
  }

  lemma UnblockedStep(c: Config, s: State, t: State, last: nat, now: u64)
    requires c.Valid() && 0 < c.ratePps && Invariant(c, s, last) && last <= now < 0x8000_0000_0000_0000
    requires SameWindow(s, t)
    ensures var d, e := Enforce(c, s, now), Enforce(c.(threshold := 0), t, now);
            if d.verdict == Blocked then SameWindow(d.state, t)
            else d.verdict == e.verdict && SameWindow(d.state, e.state)
  {
    assert Minus64(now, s.windowStart) == now - s.windowStart;
    assert c.seconds != 0 ==> c.seconds * NANOS >= NANOS;
  }

  lemma AdmittedAppend(r: Run, now: u64, a: nat, b: nat)
    ensures var q := r.(ts := r.ts + [now]); var d := Enforce(r.c, r.At(|r.ts|), now);
            && q.At(|q.ts|) == d.state
            && RateCap.AdmittedIn(q, |q.ts|, a, b)
               == RateCap.AdmittedIn(r, |r.ts|, a, b) + if a <= now < b && d.verdict == Admit then 1 else 0
  {
    hide Enforce;
    var q := r.(ts := r.ts + [now]);
    RunPrefix(r, [now], |r.ts|);
    RateCap.AdmittedPrefix(r, [now], |r.ts|, a, b);
    assert q.ts[|r.ts|] == now;
  }

  /** Quarantine only takes packets away: on the others the rule decides as if it had none. */
  lemma {:induction false} QuarantineOnlyRemoves(r: Run, n: nat, a: nat, b: nat)
    requires r.Fresh() && r.c.Valid() && 0 < r.c.ratePps && n <= |r.ts|
    ensures var p := Plain(r, n);
            && SameWindow(r.At(n), p.At(|p.ts|))
            && RateCap.AdmittedIn(r, n, a, b) == RateCap.AdmittedIn(p, |p.ts|, a, b)
  {
    hide Enforce;
    if n > 0 {
      QuarantineOnlyRemoves(r, n - 1, a, b);
      var p, now := Plain(r, n - 1), r.ts[n - 1];
      RunKeepsInvariant(r, n - 1);
      UnblockedStep(r.c, r.At(n - 1), p.At(|p.ts|), if n == 1 then 0 else r.ts[n - 2], now);
      AdmittedAppend(p, now, a, b);
      if r.VerdictAt(n - 1) == Blocked {
        assert Plain(r, n) == p;
      } else {
        assert Plain(r, n) == p.(ts := p.ts + [now]);
      }
    }
  }

  /**
   A run of any validated rule meets the documented ceiling exactly when, among
   its arrivals outside quarantine, rivals in successive windows are at least a
   second apart.
   */
  lemma CeilingMetIffUnblocked(r: Run)
    requires r.Fresh() && r.c.Valid() && 0 < r.c.ratePps
    ensures CeilingMet(r) <==> Spaced(Unblocked(r, |r.ts|), r.c.ratePps)
  {
    hide Spaced, RateCap.AdmittedIn;
    var p := Plain(r, |r.ts|);
    UnblockedClock(r, |r.ts|);
    CeilingMetIff(p);
    forall a: nat
      ensures InSecond(r, a) == InSecond(p, a)
    {
      QuarantineOnlyRemoves(r, |r.ts|, a, a + NANOS);
    }
  }
}
