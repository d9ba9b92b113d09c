/** What autonomous quarantine guarantees over whole runs. */
module Quarantine {
  import opened Bytes
  import opened Policy

  /** A run of a newly written rule that passed validation. */
  ghost predicate Proper(r: Run) {
    r.Fresh() && r.c.Valid()
  }

  /** The packet with which the window current after `n` packets began. */
  ghost function WindowOf(r: Run, n: nat): (w: nat)
    requires 0 < n <= |r.ts|
    ensures w < n && r.Begins(w)
    ensures forall i :: w < i < n ==> !r.Opens(i)
  {
    if r.Begins(n - 1) then n - 1 else WindowOf(r, n - 1)
  }

  lemma {:induction false} WindowOfUnique(r: Run, w: nat, n: nat)
    requires w < n <= |r.ts| && r.Begins(w)
    requires forall i :: w < i < n ==> !r.Opens(i)
    ensures WindowOf(r, n) == w
  {
    if w < n - 1 {
      WindowOfUnique(r, w, n - 1);
    }
  }

  /** Evaluation `d` of the policy on state `s` opened a window. */
  predicate Opened(s: State, d: Decision) {
    d.state.windowStart != s.windowStart
  }

  /** One evaluation on a state that satisfies the invariant, branch by branch. */
  lemma EnforceFacts(c: Config, s: State, last: nat, now: u64)
    requires c.Valid() && Invariant(c, s, last) && last <= now < 0x8000_0000_0000_0000
    ensures var d := Enforce(c, s, now); var t := d.state;
            && (d.verdict == Blocked <==> s.until != 0 && now < s.until)
            && (d.verdict == Blocked ==> t == s)
            && (d.verdict == RateDrop <==>
                  && d.verdict != Blocked && 0 < c.ratePps == s.windowCount
                  && now < s.windowStart + NANOS)
            && (Opened(s, d) <==> 0 < c.ratePps && d.verdict != Blocked && now >= s.windowStart + NANOS)
            && (Opened(s, d) ==> t.windowStart == now && d.verdict == Admit && t.windowCount == 1 && !t.violated)
            && (!Opened(s, d) ==> t.streak == s.streak && t.until == s.until)
            && (!Opened(s, d) && 0 < c.ratePps ==>
                  && t.windowCount == s.windowCount + (if d.verdict == Admit then 1 else 0)
                  && (t.violated <==> s.violated || d.verdict == RateDrop))
            && (Opened(s, d) ==> (t.until != 0 <==> s.violated && c.threshold != 0 && s.streak + 1 == c.threshold))
            && (Opened(s, d) && t.until != 0 ==> t.until > now >= s.until)
            && (Opened(s, d) && t.until == 0 && c.threshold != 0 ==>
                  t.streak == if s.violated then s.streak + 1 else 0)
  {
    assert Minus64(now, s.windowStart) == now - s.windowStart;
    assert c.seconds * NANOS < 0x1_0000_0000 * NANOS;
    assert c.seconds != 0 ==> c.seconds * NANOS >= NANOS;
  }

  /** One step of a run, as seen from outside. */
  lemma StepFacts(r: Run, i: nat)
    requires Proper(r) && i < |r.ts|
    ensures var s, t, now := r.At(i), r.At(i + 1), r.ts[i];
            && s.windowStart <= now
            && (r.VerdictAt(i) == Blocked <==> s.until != 0 && now < s.until)
            && (r.VerdictAt(i) == RateDrop <==>
                  && r.VerdictAt(i) != Blocked && 0 < r.c.ratePps == s.windowCount
                  && now < s.windowStart + NANOS)
            && (r.Opens(i) <==> 0 < r.c.ratePps && r.VerdictAt(i) != Blocked && now >= s.windowStart + NANOS)
            && (r.Opens(i) ==> t.windowStart == now && r.VerdictAt(i) == Admit && t.windowCount == 1 && !t.violated)
            && (!r.Opens(i) ==> t.streak == s.streak && t.until == s.until && !r.Trips(i))
            && (!r.Opens(i) && 0 < r.c.ratePps ==>
                  && t.windowCount == s.windowCount + (if r.VerdictAt(i) == Admit then 1 else 0)
                  && (t.violated <==> s.violated || r.VerdictAt(i) == RateDrop))
            && (r.Trips(i) <==> r.Opens(i) && t.until != 0)
            && (r.Opens(i) ==> (t.until != 0 <==> s.violated && r.c.threshold != 0 && s.streak + 1 == r.c.threshold))
            && (r.Opens(i) && t.until == 0 && r.c.threshold != 0 ==> t.streak == if s.violated then s.streak + 1 else 0)
  {
    hide Enforce;
    RunKeepsInvariant(r, i);
    EnforceFacts(r.c, r.At(i), if i == 0 then 0 else r.ts[i - 1], r.ts[i]);
  }

  /** The state of a rule, read off the packets of its current window. */
  lemma {:induction false} WindowFacts(r: Run, n: nat)
    requires Proper(r) && 0 < r.c.ratePps && 0 < n <= |r.ts|
    ensures var s, w := r.At(n), WindowOf(r, n);
            && s.windowStart == r.WindowTime(w)
            && s.windowCount == r.Admits(w, n)
            && (s.violated <==> r.DropsIn(w, n))
            && s.streak == r.At(w + 1).streak
            && s.until == r.At(w + 1).until
  {
    hide Enforce;
    StepFacts(r, n - 1);
    var w := WindowOf(r, n);
    assert r.Admits(w, n) == r.Admits(w, n - 1) + if r.VerdictAt(n - 1) == Admit then 1 else 0;
    if r.Begins(n - 1) {
      assert r.DropsIn(w, n) <==> r.VerdictAt(n - 1) == RateDrop;
    } else {
      WindowFacts(r, n - 1);
      assert r.DropsIn(w, n) <==> r.DropsIn(w, n - 1) || r.VerdictAt(n - 1) == RateDrop;
    }
  }

  /**
   The cap drops a packet exactly when it is not blocked and the window it
   falls into, less than a second old, has already admitted `ratePps` packets.
   */
  lemma RateDropIffCapUsed(r: Run, i: nat)
    requires Proper(r) && i < |r.ts|
    ensures r.VerdictAt(i) == RateDrop
        <==> && 0 < i && 0 < r.c.ratePps && r.VerdictAt(i) != Blocked
             && r.ts[i] < r.WindowTime(WindowOf(r, i)) + NANOS
             && r.Admits(WindowOf(r, i), i) == r.c.ratePps
  {
    hide Enforce;
    StepFacts(r, i);
    if 0 < i && 0 < r.c.ratePps {
      WindowFacts(r, i);
    }
  }

  // ----- What a quarantine is evidence of -----

  /** The packets a, .., b-1 form a window of the run in which the cap was hit and exceeded. */
  ghost predicate FullWindow(r: Run, a: nat, b: nat) {
    && a < b < |r.ts|
    && r.Begins(a) && r.Opens(b)
    && (forall i :: a < i < b ==> !r.Opens(i))
    && r.Admits(a, b) == r.c.ratePps
    && r.DropsIn(a, b)
  }

  /** Entries `m` and `m + 1` of `starts` bound a full window. */
  ghost predicate FullAt(r: Run, starts: seq<nat>, m: nat)
    requires m + 1 < |starts|
  {
    FullWindow(r, starts[m], starts[m + 1])
  }

  /** `starts` are the beginnings of consecutive full windows. */
  ghost predicate FullWindows(r: Run, starts: seq<nat>) {
    forall m :: 0 <= m && m + 1 < |starts| ==> FullAt(r, starts, m)
  }

  /** As many consecutive full windows as the threshold asks for, ended by packet `j`. */
  ghost predicate Evidence(r: Run, j: nat, starts: seq<nat>) {
    && r.c.threshold != 0
    && |starts| == r.c.threshold + 1
    && starts[r.c.threshold] == j
    && FullWindows(r, starts)
  }

  lemma CurrentWindowFull(r: Run, j: nat)
    requires Proper(r) && 0 < r.c.ratePps && 0 < j < |r.ts| && r.Opens(j) && r.At(j).violated
    ensures FullWindow(r, WindowOf(r, j), j)
  {
    hide Enforce;
    WindowFacts(r, j);
    RunKeepsInvariant(r, j);
  }

  lemma Extend(r: Run, starts: seq<nat>, b: nat) returns (longer: seq<nat>)
    requires FullWindows(r, starts) && starts != [] && FullWindow(r, starts[|starts| - 1], b)
    ensures FullWindows(r, longer) && longer == starts + [b]
  {
    hide FullWindow;
    longer := starts + [b];
    forall m: nat | m + 1 < |longer|
      ensures FullAt(r, longer, m)
    {
      assert m + 1 < |starts| ==> FullAt(r, starts, m);
    }
  }

  /** The streak counter counts consecutive full windows. */
  lemma {:induction false} StreakEvidence(r: Run, n: nat) returns (starts: seq<nat>)
    requires Proper(r) && 0 < r.c.ratePps && r.c.threshold != 0 && 0 < n <= |r.ts|
    ensures |starts| == r.At(n).streak + 1
    ensures starts[|starts| - 1] == WindowOf(r, n)
    ensures FullWindows(r, starts)
  {
    hide Enforce, FullWindow;
    StepFacts(r, n - 1);
    if n == 1 {
      starts := [0];
    } else {
      var before := StreakEvidence(r, n - 1);
      if !r.Opens(n - 1) {
        starts := before;
      } else if r.At(n - 1).violated && r.At(n).until == 0 {
        CurrentWindowFull(r, n - 1);
        starts := Extend(r, before, n - 1);
      } else {
        RunKeepsInvariant(r, n);
        starts := [n - 1];
      }
    }
  }

  /** A packet of a full window did not trip quarantine, nor did the one that began it. */
  lemma FullWindowUnquarantined(r: Run, a: nat, b: nat)
    requires Proper(r) && 0 < r.c.ratePps && FullWindow(r, a, b)
    ensures WindowOf(r, b) == a
    ensures r.At(b).violated && r.At(b).until == 0 == r.At(a + 1).until
    ensures r.At(b).streak == r.At(a + 1).streak
    ensures r.ts[b] >= r.WindowTime(a) + NANOS && r.WindowTime(b) == r.ts[b]
    ensures !r.Trips(a)
  {
    hide Enforce;
    WindowOfUnique(r, a, b);
    WindowFacts(r, b);
    RunKeepsInvariant(r, b);
    StepFacts(r, b);
  }

  /** `m` consecutive full windows raise the streak to at least `m`. */
  lemma {:induction false} FullWindowsRaiseStreak(r: Run, starts: seq<nat>, m: nat)
    requires Proper(r) && 0 < r.c.ratePps && r.c.threshold != 0
    requires FullWindows(r, starts) && m + 1 < |starts|
    ensures FullWindow(r, starts[m], starts[m + 1])
    ensures r.At(starts[m] + 1).streak >= m
  {
    hide Enforce;
    assert FullAt(r, starts, m);
    if m > 0 {
      FullWindowsRaiseStreak(r, starts, m - 1);
      FullWindowUnquarantined(r, starts[m - 1], starts[m]);
      FullWindowUnquarantined(r, starts[m], starts[m + 1]);
      StepFacts(r, starts[m]);
    }
  }

  lemma TripHasEvidence(r: Run, j: nat) returns (starts: seq<nat>)
    requires Proper(r) && j < |r.ts| && r.Trips(j)
    ensures 0 < r.c.ratePps && Evidence(r, j, starts)
  {
    hide Enforce;
    StepFacts(r, j);
    assert j > 0;
    var before := StreakEvidence(r, j);
    CurrentWindowFull(r, j);
    starts := Extend(r, before, j);
  }

  lemma EvidenceTrips(r: Run, j: nat, starts: seq<nat>)
    requires Proper(r) && 0 < r.c.ratePps && j < |r.ts| && Evidence(r, j, starts)
    ensures r.Trips(j)
  {
    hide Enforce;
    var k := r.c.threshold;
    FullWindowsRaiseStreak(r, starts, k - 1);
    FullWindowUnquarantined(r, starts[k - 1], j);
    RunKeepsInvariant(r, j);
    StepFacts(r, j);
  }

  /**
   A packet puts its rule into quarantine exactly when it ends `threshold`
   consecutive windows in each of which the cap was used up and exceeded.
   */
  lemma QuarantineIffEvidence(r: Run, j: nat)
    requires Proper(r) && j < |r.ts|
    ensures r.Trips(j) <==> exists starts: seq<nat> :: Evidence(r, j, starts)
  {
    hide Enforce;
    if r.Trips(j) {
      var starts := TripHasEvidence(r, j);
    }
    forall starts: seq<nat> | Evidence(r, j, starts)
      ensures r.Trips(j)
    {
      assert FullAt(r, starts, 0);
      StepFacts(r, starts[1]);
      EvidenceTrips(r, j, starts);
    }
  }

  lemma {:induction false} FullWindowsSpan(r: Run, starts: seq<nat>, m: nat)
    requires Proper(r) && 0 < r.c.ratePps && FullWindows(r, starts) && m < |starts|
    requires m > 0 || starts[0] < |r.ts|
    ensures starts[0] < |r.ts| && starts[m] < |r.ts|
    ensures r.WindowTime(starts[m]) >= r.WindowTime(starts[0]) + m * NANOS
  {
    hide Enforce;
    if m > 0 {
      assert FullAt(r, starts, m - 1);
      FullWindowsSpan(r, starts, m - 1);
      FullWindowUnquarantined(r, starts[m - 1], starts[m]);
    }
  }

  /** The evidence for a quarantine covers at least `threshold` seconds. */
  lemma EvidenceSpans(r: Run, j: nat, starts: seq<nat>)
    requires Proper(r) && 0 < r.c.ratePps && j < |r.ts| && Evidence(r, j, starts)
    ensures starts[0] < |r.ts|
    ensures r.ts[j] >= r.WindowTime(starts[0]) + r.c.threshold * NANOS
  {
    hide Enforce;
    var k := r.c.threshold;
    FullWindowsSpan(r, starts, k);
    assert FullAt(r, starts, k - 1);
    FullWindowUnquarantined(r, starts[k - 1], starts[k]);
  }

  // ----- Idle time between the windows -----

  /** Every packet before the end of a full window arrives within its second. */
  lemma BeforeWindowEnd(r: Run, a: nat, b: nat, i: nat)
    requires Proper(r) && 0 < r.c.ratePps && FullWindow(r, a, b) && i < b
    ensures r.ts[i] < r.WindowTime(a) + NANOS
  {
    hide Enforce;
    var w := r.WindowTime(a);
    StepFacts(r, a);
    if a < i {
      WindowOfUnique(r, a, i);
      WindowFacts(r, i);
      FullWindowUnquarantined(r, a, b);
      StepFacts(r, i);
    } else {
      assert r.ts[i] <= r.ts[a];
      FullWindowUnquarantined(r, a, b);
      if !r.Opens(a) {
        RunKeepsInvariant(r, 0);
      }
    }
  }

  /**
   The window after a full one opens within `d` of its end exactly when some
   packet arrives in that stretch: with d = 0, exactly at its end.
   */
  lemma NextWindowWithinIff(r: Run, a: nat, b: nat, d: nat)
    requires Proper(r) && 0 < r.c.ratePps && FullWindow(r, a, b)
    ensures var end := r.WindowTime(a) + NANOS;
            r.WindowTime(b) <= end + d <==> exists i :: 0 <= i < |r.ts| && end <= r.ts[i] <= end + d
  {
    FullWindowUnquarantined(r, a, b);
    var end := r.WindowTime(a) + NANOS;
    forall i | 0 <= i < |r.ts| && end <= r.ts[i] <= end + d
      ensures r.WindowTime(b) <= end + d
    {
      if i < b {
        BeforeWindowEnd(r, a, b, i);
      }
      assert r.ts[b] <= r.ts[i];
    }
  }

  /** Successive arrivals are less than `gap` apart. */
  ghost predicate NoLongGaps(r: Run, gap: nat) {
    forall i :: 0 < i < |r.ts| ==> r.ts[i] < r.ts[i - 1] + gap
  }

  lemma {:induction false} WindowsSpanAtMost(r: Run, starts: seq<nat>, m: nat, gap: nat)
    requires Proper(r) && 0 < r.c.ratePps && FullWindows(r, starts) && m < |starts|
    requires NoLongGaps(r, gap) && starts[0] < |r.ts|
    ensures starts[m] < |r.ts|
    ensures r.WindowTime(starts[m]) <= r.WindowTime(starts[0]) + m * (NANOS + gap)
    ensures m > 0 ==> r.WindowTime(starts[m]) < r.WindowTime(starts[0]) + m * (NANOS + gap)
  {
    if m > 0 {
      hide FullWindow, Enforce;
      var a, b := starts[m - 1], starts[m];
      assert FullAt(r, starts, m - 1);
      WindowsSpanAtMost(r, starts, m - 1, gap);
      WindowBounds(r, a, b);
      BeforeWindowEnd(r, a, b, b - 1);
      FullWindowUnquarantined(r, a, b);
      assert r.ts[b] < r.ts[b - 1] + gap;
      assert m * (NANOS + gap) == (m - 1) * (NANOS + gap) + (NANOS + gap);
    }
  }

  lemma WindowBounds(r: Run, a: nat, b: nat)
    requires FullWindow(r, a, b)
    ensures a < b < |r.ts|
  {
  }

  /** Without long gaps between arrivals the evidence is not spread out either. */
  lemma EvidenceSpansAtMost(r: Run, j: nat, starts: seq<nat>, gap: nat)
    requires Proper(r) && 0 < r.c.ratePps && j < |r.ts| && Evidence(r, j, starts) && NoLongGaps(r, gap)
    ensures starts[0] < |r.ts|
    ensures r.ts[j] < r.WindowTime(starts[0]) + r.c.threshold * (NANOS + gap)
  {
    var k := r.c.threshold;
    assert FullAt(r, starts, 0);
    WindowsSpanAtMost(r, starts, k, gap);
    assert FullAt(r, starts, k - 1);
    FullWindowUnquarantined(r, starts[k - 1], starts[k]);
  }

  /** The `m`-th second of the evidence, counted from its first window, begins with an arrival. */
  ghost predicate ArrivalAtSecond(r: Run, w: nat, m: nat) {
    exists i :: 0 <= i < |r.ts| && r.ts[i] == w + m * NANOS
  }

  /**
   The windows of the evidence are back to back, covering exactly `threshold`
   seconds, precisely when a packet arrives at the very end of each of them.
   */
  lemma BackToBackIff(r: Run, j: nat, starts: seq<nat>)
    requires Proper(r) && 0 < r.c.ratePps && j < |r.ts| && Evidence(r, j, starts)
    ensures starts[0] < |r.ts|
    ensures var w := r.WindowTime(starts[0]);
            r.ts[j] == w + r.c.threshold * NANOS
            <==> forall m :: 1 <= m <= r.c.threshold ==> ArrivalAtSecond(r, w, m)
  {
    hide Enforce, FullWindow;
    var k := r.c.threshold;
    EvidenceSpans(r, j, starts);
    var w := r.WindowTime(starts[0]);
    assert FullAt(r, starts, k - 1);
    FullWindowUnquarantined(r, starts[k - 1], starts[k]);
    if r.ts[j] == w + k * NANOS {
      forall m | 1 <= m <= k
        ensures ArrivalAtSecond(r, w, m)
      {
        TightSuffix(r, starts, m, k);
        assert FullAt(r, starts, m - 1);
        FullWindowUnquarantined(r, starts[m - 1], starts[m]);
        assert r.ts[starts[m]] == w + m * NANOS;
      }
    }
    if forall m :: 1 <= m <= k ==> ArrivalAtSecond(r, w, m) {
      TightPrefix(r, starts, k);
    }
  }

  /** If the last of these windows begins as early as it can, so does every one. */
  lemma {:induction false} TightSuffix(r: Run, starts: seq<nat>, m: nat, k: nat)
    requires Proper(r) && 0 < r.c.ratePps && FullWindows(r, starts) && m <= k < |starts|
    requires starts[0] < |r.ts| && starts[k] < |r.ts|
    requires r.WindowTime(starts[k]) == r.WindowTime(starts[0]) + k * NANOS
    ensures starts[m] < |r.ts| && r.WindowTime(starts[m]) == r.WindowTime(starts[0]) + m * NANOS
  {
    if m < k {
      hide Enforce, FullWindow;
      assert FullAt(r, starts, k - 1);
      WindowBounds(r, starts[k - 1], starts[k]);
      FullWindowUnquarantined(r, starts[k - 1], starts[k]);
      FullWindowsSpan(r, starts, k - 1);
      TightSuffix(r, starts, m, k - 1);
    }
  }

  /** If a packet arrives at each second, each window begins as early as it can. */
  lemma {:induction false} TightPrefix(r: Run, starts: seq<nat>, m: nat)
    requires Proper(r) && 0 < r.c.ratePps && FullWindows(r, starts) && m < |starts|
    requires starts[0] < |r.ts|
    requires forall n :: 1 <= n <= m ==> ArrivalAtSecond(r, r.WindowTime(starts[0]), n)
    ensures starts[m] < |r.ts| && r.WindowTime(starts[m]) == r.WindowTime(starts[0]) + m * NANOS
  {
    if m > 0 {
      hide Enforce, FullWindow;
      TightPrefix(r, starts, m - 1);
      var a, b := starts[m - 1], starts[m];
      assert FullAt(r, starts, m - 1);
      WindowBounds(r, a, b);
      FullWindowUnquarantined(r, a, b);
      assert ArrivalAtSecond(r, r.WindowTime(starts[0]), m);
      NextWindowWithinIff(r, a, b, 0);
    }
  }

  /** Minutes of silence do not reset the streak: the last of these packets trips. */
  lemma IdleTimeKeepsStreak()
    ensures var s := NANOS;
            var r := Run(Config(1, 2, 1), FRESH, [s, s, 100 * s, 100 * s, 500 * s]);
            Proper(r) && r.Trips(4)
  {
    var s := NANOS;
    var c := Config(1, 2, 1);
    var r := Run(c, FRESH, [s, s, 100 * s, 100 * s, 500 * s]);
    assert r.At(1) == State(1, s, 0, 0, false, 0);
    assert r.At(2) == State(1, s, 1, 0, true, 0);
    assert r.At(3) == State(1, 100 * s, 1, 1, false, 0);
    assert r.At(4) == State(1, 100 * s, 2, 1, true, 0);
    assert r.At(5) == State(1, 500 * s, 2, 0, false, 501 * s);
  }

  // ----- The life of a quarantine -----

  /** The deadline of the quarantine that packet `j` sets. */
  ghost function Deadline(r: Run, j: nat): nat
    requires j < |r.ts|
  {
    r.ts[j] + r.c.seconds * 1_000_000_000
  }

  lemma TripSetsDeadline(r: Run, j: nat)
    requires Proper(r) && j < |r.ts| && r.Trips(j)
    ensures r.At(j + 1).until == Deadline(r, j) && r.At(j + 1).windowStart == r.ts[j]
    ensures r.VerdictAt(j) == Admit
    ensures r.c.seconds > 0 && r.c.ratePps > 0
  {
    hide Enforce;
    StepFacts(r, j);
    RunKeepsInvariant(r, j + 1);
  }

  /** Until the deadline nothing changes. */
  lemma {:induction false} QuarantineFreezes(r: Run, j: nat, i: nat)
    requires Proper(r) && j < i <= |r.ts| && r.Trips(j)
    requires i == j + 1 || r.ts[i - 1] < Deadline(r, j)
    ensures r.At(i) == r.At(j + 1)
    ensures j + 1 < i ==> r.VerdictAt(i - 1) == Blocked
  {
    TripSetsDeadline(r, j);
    if j + 1 < i {
      QuarantineFreezes(r, j, i - 1);
    }
  }

  /** Every packet before the deadline is blocked. */
  lemma {:induction false} BlockedUntilDeadline(r: Run, j: nat, i: nat)
    requires Proper(r) && j < i < |r.ts| && r.Trips(j) && r.ts[i] < Deadline(r, j)
    ensures r.VerdictAt(i) == Blocked && r.At(i) == r.At(i + 1) == r.At(j + 1)
  {
    hide Enforce;
    QuarantineFreezes(r, j, i + 1);
    QuarantineFreezes(r, j, i);
  }

  lemma AdmitKeepsDrops(c: Config, s: State, now: u64)
    requires Enforce(c, s, now).verdict == Admit
    ensures Enforce(c, s, now).state.rateDrops == s.rateDrops
  {
  }

  /** The first packet at or after the deadline is admitted into a fresh window. */
  lemma ReleasedAtDeadline(r: Run, j: nat, i: nat)
    requires Proper(r) && j < i < |r.ts| && r.Trips(j) && Deadline(r, j) <= r.ts[i]
    requires i == j + 1 || r.ts[i - 1] < Deadline(r, j)
    ensures r.VerdictAt(i) == Admit && !r.Trips(i)
    ensures r.At(i + 1) == State(1, r.ts[i], r.At(j).rateDrops, 0, false, 0)
  {
    hide Enforce;
    QuarantineFreezes(r, j, i);
    TripSetsDeadline(r, j);
    RunKeepsInvariant(r, i);
    StepFacts(r, i);
    AdmitKeepsDrops(r.c, r.At(j), r.ts[j]);
    AdmitKeepsDrops(r.c, r.At(i), r.ts[i]);
  }

  /** A packet is blocked exactly when an earlier one set a quarantine that has not expired. */
  lemma BlockedIffQuarantined(r: Run, i: nat)
    requires Proper(r) && i < |r.ts|
    ensures r.VerdictAt(i) == Blocked
        <==> exists j :: 0 <= j < i && r.Trips(j) && r.ts[i] < Deadline(r, j)
  {
    hide Enforce;
    if r.VerdictAt(i) == Blocked {
      RunKeepsInvariant(r, i);
      StepFacts(r, i);
      RunKeepsInvariant(r, 0);
      var w := WindowOf(r, i);
      WindowFacts(r, i);
      StepFacts(r, w);
      assert r.Trips(w);
      TripSetsDeadline(r, w);
    }
    forall j | 0 <= j < i && r.Trips(j) && r.ts[i] < Deadline(r, j)
      ensures r.VerdictAt(i) == Blocked
    {
      BlockedUntilDeadline(r, j, i);
    }
  }

  /** The windows that justify a quarantine begin after every earlier quarantine. */
  lemma {:induction false} EvidenceAfterTrip(r: Run, i: nat, starts: seq<nat>, m: nat)
    requires Proper(r) && 0 < r.c.ratePps && FullWindows(r, starts)
    requires m < |starts| && i < |r.ts| && r.Trips(i) && i < starts[m]
    ensures i < starts[0]
  {
    hide Enforce;
    if m > 0 {
      var a, b := starts[m - 1], starts[m];
      assert FullAt(r, starts, m - 1);
      StepFacts(r, i);
      FullWindowUnquarantined(r, a, b);
      assert i < a;
      EvidenceAfterTrip(r, i, starts, m - 1);
    }
  }

  /** Two quarantines of a rule start at least (seconds + threshold) seconds apart. */
  lemma QuarantinesApart(r: Run, i: nat, j: nat)
    requires Proper(r) && i < j < |r.ts| && r.Trips(i) && r.Trips(j)
    ensures r.ts[j] >= r.ts[i] + (r.c.seconds + r.c.threshold) * NANOS
  {
    hide Enforce;
    var starts := TripHasEvidence(r, j);
    EvidenceAfterTrip(r, i, starts, r.c.threshold);
    EvidenceSpans(r, j, starts);
    var a := starts[0];
    assert FullAt(r, starts, 0);
    StepFacts(r, a);
    BlockedIffQuarantined(r, a);
    assert r.ts[a] >= Deadline(r, i);
  }

  // ----- Why validation demands a duration -----

  /** With no duration a deadline is never ahead of the clock. */
  lemma NoDurationStep(c: Config, s: State, now: u64)
    requires c.seconds == 0 && s.until <= now
    ensures Enforce(c, s, now).verdict != Blocked && Enforce(c, s, now).state.until <= now
  {
  }

  /** A quarantine without a duration never blocks anything. */
  lemma {:induction false} NoDurationNoBlock(r: Run, n: nat)
    requires r.Fresh() && r.c.seconds == 0 && n <= |r.ts|
    ensures r.At(n).until <= if n == 0 then 0 else r.ts[n - 1]
    ensures forall i :: 0 <= i < n ==> r.VerdictAt(i) != Blocked
  {
    hide Enforce;
    if n > 0 {
      NoDurationNoBlock(r, n - 1);
      NoDurationStep(r.c, r.At(n - 1), r.ts[n - 1]);
    }
  }
}
