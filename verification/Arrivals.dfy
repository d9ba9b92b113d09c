/**
 What a rule does with its packets, told from arrival times alone: an account of
 cap and quarantine that knows no counter, no flag and no deadline field.
 */
module Arrivals {
  import opened Bytes
  import opened Policy
  import opened Ceiling
  import Quarantine
  import RateCap

  /** How many windows in a row, right before that of packet `i`, hold more than `cap` arrivals. */
  ghost function Streak(ts: seq<u64>, cap: nat, i: nat): nat
    requires i < |ts|
  {
    var h := Head(ts, i);
    if h > 0 && h - Head(ts, h - 1) > cap then Streak(ts, cap, h - 1) + 1 else 0
  }

  /** Packet `i` begins a window, and `threshold` windows before it were exceeded. */
  ghost predicate Sets(c: Config, ts: seq<u64>, i: nat)
    requires i < |ts|
  {
    c.threshold != 0 && Head(ts, i) == i && Streak(ts, c.ratePps, i) >= c.threshold
  }

  /** The latest of these packets set a quarantine that a packet at `now` still falls into. */
  ghost predicate Held(c: Config, us: seq<u64>, now: nat) {
    us != [] && Sets(c, us, |us| - 1) && now < us[|us| - 1] + c.seconds * 1_000_000_000
  }

  /** Those of the first `n` arrivals that no quarantine holds back. */
  ghost function LetThrough(c: Config, ts: seq<u64>, n: nat): seq<u64>
    requires n <= |ts|
  {
    if n == 0 then []
    else
      var us := LetThrough(c, ts, n - 1);
      if Held(c, us, ts[n - 1]) then us else us + [ts[n - 1]]
  }

  /** What becomes of a packet at `now` behind `us`. */
  ghost function VerdictBehind(c: Config, us: seq<u64>, now: u64): Verdict {
    if c.ratePps == 0 then Admit
    else if Held(c, us, now) then Blocked
    else if Fits(us + [now], c.ratePps, |us|) then Admit
    else RateDrop
  }

  /** A packet at `now` behind `us` sets a quarantine. */
  ghost predicate SetsBehind(c: Config, us: seq<u64>, now: u64) {
    0 < c.ratePps && !Held(c, us, now) && Sets(c, us + [now], |us|)
  }

  // ----- Windows only look back -----

  lemma {:induction false} Prefix(us: seq<u64>, ts: seq<u64>, cap: nat, i: nat)
    requires i < |us| <= |ts| && us == ts[..|us|]
    ensures Base(us, i) == Base(ts, i) && Head(us, i) == Head(ts, i)
    ensures Streak(us, cap, i) == Streak(ts, cap, i)
  {
    if i > 0 {
      Prefix(us, ts, cap, i - 1);
      var h := Head(ts, i);
      if 0 < h < i {
        Prefix(us, ts, cap, h - 1);
      }
    }
  }

  lemma SetsPrefix(c: Config, us: seq<u64>, ts: seq<u64>, i: nat)
    requires i < |us| <= |ts| && us == ts[..|us|]
    ensures Sets(c, us, i) <==> Sets(c, ts, i)
  {
    Prefix(us, ts, c.ratePps, i);
  }

  // ----- The policy state, told from arrivals -----

  /** The state of a rule that has let through the packets `us` and none since. */
  ghost predicate Told(c: Config, us: seq<u64>, s: State) {
    if us == [] then s == FRESH
    else
      var l := |us| - 1;
      && s.windowStart == Base(us, l)
      && s.windowCount == Min(c.ratePps, |us| - Head(us, l))
      && (s.violated <==> |us| - Head(us, l) > c.ratePps)
      && s.until == (if Sets(c, us, l) then us[l] + c.seconds * NANOS else 0)
      && (c.threshold != 0 && !Sets(c, us, l) ==> s.streak == Streak(us, c.ratePps, l))
  }

  /** One more packet, and the window it falls into. */
  lemma Append(c: Config, us: seq<u64>, now: u64)
    ensures var vs := us + [now]; var n := |us|;
            if us == [] then
              Head(vs, 0) == 0 && Streak(vs, c.ratePps, 0) == 0 && Base(vs, 0) == (if now >= NANOS then now else 0)
            else if now >= Base(us, n - 1) + NANOS then
              && Head(vs, n) == n && Base(vs, n) == now
              && Streak(vs, c.ratePps, n)
                 == if n - Head(us, n - 1) > c.ratePps then Streak(us, c.ratePps, n - 1) + 1 else 0
            else
              && Head(vs, n) == Head(us, n - 1) && Base(vs, n) == Base(us, n - 1)
              && Streak(vs, c.ratePps, n) == Streak(us, c.ratePps, n - 1)
  {
    if us != [] {
      var vs, n := us + [now], |us|;
      assert vs[n] == now && us == vs[..n];
      Prefix(us, vs, c.ratePps, n - 1);
      assert Head(vs, n) == if now >= Base(us, n - 1) + NANOS then n else Head(us, n - 1);
      var h := Head(us, n - 1);
      if h > 0 {
        Prefix(us, vs, c.ratePps, h - 1);
      }
    }
  }

  /** A packet that sets a quarantine is alone in its window so far, and opened it. */
  lemma SetsAlone(c: Config, us: seq<u64>)
    requires Clock(us) && us != [] && Sets(c, us, |us| - 1)
    ensures Head(us, |us| - 1) == |us| - 1 && Base(us, |us| - 1) == us[|us| - 1]
  {
    WindowShape(us, |us| - 1);
  }

  /** One evaluation of the policy does what its arrivals say. */
  lemma ToldStep(c: Config, us: seq<u64>, s: State, last: nat, now: u64)
    requires c.Valid() && 0 < c.ratePps && Invariant(c, s, last) && last <= now
    requires Clock(us + [now]) && Clock(us) && Told(c, us, s)
    ensures var d := Enforce(c, s, now);
            && d.verdict == VerdictBehind(c, us, now)
            && Told(c, if Held(c, us, now) then us else us + [now], d.state)
            && (SetsBehind(c, us, now) <==> d.state.until != 0 && d.state.until != s.until)
  {
    hide Enforce, Head, Base, Streak;
    assert now < 0x8000_0000_0000_0000 by {
      assert (us + [now])[|us|] == now;
    }
    Quarantine.EnforceFacts(c, s, last, now);
    EnforceKeepsInvariant(c, s, last, now);
    assert c.seconds != 0 ==> c.seconds * NANOS >= NANOS;
    assert c.threshold != 0 ==> c.seconds != 0;
    Append(c, us, now);
    if us != [] && Sets(c, us, |us| - 1) {
      SetsAlone(c, us);
    }
  }

  // ----- Runs -----

  lemma {:induction false} LetThroughClock(c: Config, ts: seq<u64>, n: nat)
    requires Clock(ts) && n <= |ts|
    ensures var us := LetThrough(c, ts, n);
            Clock(us) && forall i :: 0 <= i < |us| ==> n > 0 && us[i] <= ts[n - 1]
  {
    hide Held;
    if n > 0 {
      LetThroughClock(c, ts, n - 1);
      var us := LetThrough(c, ts, n - 1);
      assert n > 1 ==> ts[n - 2] <= ts[n - 1];
      assert forall i :: 0 <= i < |us| ==> us[i] <= ts[n - 1];
    }
  }

  lemma {:induction false} RunTold(r: Run, n: nat)
    requires Quarantine.Proper(r) && 0 < r.c.ratePps && n <= |r.ts|
    ensures Told(r.c, LetThrough(r.c, r.ts, n), r.At(n))
  {
    hide Enforce, Told, Held;
    if n == 0 {
      assert Told(r.c, [], FRESH) by {
        ToldFresh(r.c);
      }
    } else {
      RunTold(r, n - 1);
      PacketTold(r, n - 1);
    }
  }

  lemma ToldFresh(c: Config)
    ensures Told(c, [], FRESH)
  {
  }

  /** What happens at packet `i`, once the state before it is told. */
  lemma PacketTold(r: Run, i: nat)
    requires Quarantine.Proper(r) && 0 < r.c.ratePps && i < |r.ts|
    requires Told(r.c, LetThrough(r.c, r.ts, i), r.At(i))
    ensures var us := LetThrough(r.c, r.ts, i);
            && r.VerdictAt(i) == VerdictBehind(r.c, us, r.ts[i])
            && (r.Trips(i) <==> SetsBehind(r.c, us, r.ts[i]))
    ensures Told(r.c, LetThrough(r.c, r.ts, i + 1), r.At(i + 1))
  {
    hide Enforce, Told, Held, VerdictBehind, SetsBehind;
    var us := LetThrough(r.c, r.ts, i);
    LetThroughClock(r.c, r.ts, i);
    assert Clock(us + [r.ts[i]]) by {
      assert i > 0 ==> r.ts[i - 1] <= r.ts[i];
    }
    RunKeepsInvariant(r, i);
    ToldStep(r.c, us, r.At(i), if i == 0 then 0 else r.ts[i - 1], r.ts[i]);
  }

  /**
   In every run of a validated rule the verdict about each packet, and whether it
   sets a quarantine, are those told from arrival times: the packet is blocked if
   the last packet let through set a quarantine that still lasts, and otherwise
   admitted if it is among the first `ratePps` let through in its window.
   */
  lemma VerdictsFromArrivals(r: Run, i: nat)
    requires Quarantine.Proper(r) && i < |r.ts|
    ensures var us := LetThrough(r.c, r.ts, i);
            && r.VerdictAt(i) == VerdictBehind(r.c, us, r.ts[i])
            && (r.Trips(i) <==> SetsBehind(r.c, us, r.ts[i]))
  {
    hide Enforce, Told, Held, LetThrough;
    if 0 < r.c.ratePps {
      RunTold(r, i);
      PacketTold(r, i);
    } else {
      Quarantine.StepFacts(r, i);
      RunKeepsInvariant(r, i);
    }
  }

  // ----- The first quarantine -----

  lemma {:induction false} LetThroughPrefix(c: Config, us: seq<u64>, ts: seq<u64>, n: nat)
    requires n <= |us| <= |ts| && us == ts[..|us|]
    ensures LetThrough(c, us, n) == LetThrough(c, ts, n)
  {
    hide Held;
    if n > 0 {
      LetThroughPrefix(c, us, ts, n - 1);
    }
  }

  /** None of the first `n` packets sets a quarantine. */
  ghost predicate NoTrip(r: Run, n: nat)
    requires n <= |r.ts|
  {
    forall i :: 0 <= i < n ==> !r.Trips(i)
  }

  /** The same, told from arrivals. */
  ghost predicate NoneSets(c: Config, ts: seq<u64>, n: nat)
    requires n <= |ts|
  {
    forall i :: 0 <= i < n ==> !Sets(c, ts, i)
  }

  /** A packet behind which all were let through. */
  lemma NextPacket(r: Run, n: nat)
    requires Quarantine.Proper(r) && 0 < r.c.ratePps && n < |r.ts|
    requires LetThrough(r.c, r.ts, n) == r.ts[..n] && (n > 0 ==> !Sets(r.c, r.ts, n - 1))
    ensures r.Trips(n) <==> Sets(r.c, r.ts, n)
    ensures LetThrough(r.c, r.ts, n + 1) == r.ts[..n + 1]
  {
    hide Enforce, Sets;
    VerdictsFromArrivals(r, n);
    var us := r.ts[..n];
    assert us + [r.ts[n]] == r.ts[..n + 1];
    SetsPrefix(r.c, r.ts[..n + 1], r.ts, n);
    if n > 0 {
      SetsPrefix(r.c, us, r.ts, n - 1);
    }
  }

  /** Until a quarantine is set, all arrivals are let through. */
  lemma {:induction false} NoneSet(r: Run, n: nat)
    requires Quarantine.Proper(r) && 0 < r.c.ratePps && n <= |r.ts|
    ensures NoTrip(r, n) <==> NoneSets(r.c, r.ts, n)
    ensures NoTrip(r, n) ==> LetThrough(r.c, r.ts, n) == r.ts[..n]
  {
    hide Enforce, Sets;
    if n > 0 {
      NoneSet(r, n - 1);
      if NoTrip(r, n - 1) {
        NextPacket(r, n - 1);
      }
    }
  }

  /**
   A packet sets the first quarantine of a run exactly when it is the first of the
   arrivals that begins a window right behind `threshold` windows with more than
   `ratePps` arrivals each.
   */
  lemma FirstQuarantineIff(r: Run, j: nat)
    requires Quarantine.Proper(r) && 0 < r.c.ratePps && j < |r.ts|
    ensures r.Trips(j) && NoTrip(r, j) <==> Sets(r.c, r.ts, j) && NoneSets(r.c, r.ts, j)
  {
    hide Enforce, Sets;
    NoneSet(r, j);
    if NoTrip(r, j) {
      NextPacket(r, j);
    }
  }

  // ----- The ceiling -----

  lemma {:induction false} UnblockedIsLetThrough(r: Run, n: nat)
    requires Quarantine.Proper(r) && 0 < r.c.ratePps && n <= |r.ts|
    ensures Unblocked(r, n) == LetThrough(r.c, r.ts, n)
  {
    hide Enforce, Held;
    if n > 0 {
      UnblockedIsLetThrough(r, n - 1);
      VerdictsFromArrivals(r, n - 1);
    }
  }

  /**
   A run of any validated rule meets the documented ceiling exactly when, among
   the arrivals that no quarantine holds back, rivals in successive windows are at
   least a second apart.
   */
  lemma CeilingMetIffArrivals(r: Run)
    requires Quarantine.Proper(r) && 0 < r.c.ratePps
    ensures CeilingMet(r) <==> Spaced(LetThrough(r.c, r.ts, |r.ts|), r.c.ratePps)
  {
    UnblockedIsLetThrough(r, |r.ts|);
    CeilingMetIffUnblocked(r);
  }
}
