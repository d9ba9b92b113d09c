/**
 Bounded growth: presenting the router's output to the program again and again,
 under any rules, never stacks a second envelope on a frame that has one.
 */
module Growth {
  import opened Bytes
  import opened Nat
  import opened Gtpu
  import opened Dataplane
  import Policy
  import Rules
  import Tunnel
  import Conservation

  /** What one traversal finds in place: egress ports, rules, free space and time. */
  datatype Env = Env(tx: set<u32>, table: Table, headroom: nat, now: u64)

  function Traverse(e: Env, f: seq<byte>): seq<byte> {
    Step(e.tx, e.table, Packet(f, e.headroom, e.now)).frame
  }

  /** The frame after the first `n` traversals. */
  ghost function FrameAfter(envs: seq<Env>, f: seq<byte>, n: nat): seq<byte>
    requires n <= |envs|
  {
    if n == 0 then f else Traverse(envs[n - 1], FrameAfter(envs, f, n - 1))
  }

  // ----- Recognition does not depend on the Ethernet addresses -----

  lemma {:induction false} WalkIgnoresPrefix(f: seq<byte>, g: seq<byte>, at: nat, next: byte, limit: nat)
    requires |f| == |g| && at >= 12 && forall i :: 12 <= i < |f| ==> f[i] == g[i]
    ensures WalkLimited(f, at, next, limit) == WalkLimited(g, at, next, limit)
    decreases limit
  {
    if limit > 0 && next != 0 {
      var size := ExtensionSize(f, at);
      if size.Some? {
        WalkIgnoresPrefix(f, g, at + size.value, f[at + size.value - 1], limit - 1);
      }
    }
  }

  lemma GtpuIgnoresMacs(f: seq<byte>, g: seq<byte>, gtp: nat)
    requires |f| == |g| && gtp >= ETH_LEN && forall i :: 12 <= i < |f| ==> f[i] == g[i]
    ensures ParseGtpu(f, gtp) == ParseGtpu(g, gtp)
  {
    hide WalkLimited;
    if gtp + 12 <= |f| {
      WalkIgnoresPrefix(f, g, gtp + 12, f[gtp + 11], MAX_EXTENSIONS);
      LimitedWalkInFrame(f, gtp + 12, f[gtp + 11], MAX_EXTENSIONS);
    }
  }

  lemma ParseIgnoresMacs(f: seq<byte>, g: seq<byte>)
    requires |f| == |g| && forall i :: 12 <= i < |f| ==> f[i] == g[i]
    ensures Parse(f) == Parse(g)
  {
    hide ParseGtpu;
    if |f| >= 34 {
      GtpuIgnoresMacs(f, g, ETH_LEN + HeaderLen(f) + 8);
    }
  }

  // ----- One traversal -----

  /** How the frame that leaves a traversal relates to the one that entered it. */
  ghost predicate Shape(f: seq<byte>, g: seq<byte>) {
    || g == f
    || (|g| == |f| && Parse(g) == Parse(f) && Parse(f).Tunnel?)
    || (Parse(f).Tunnel? && |g| == |f| - Parse(f).strip)
    || (&& Parse(f).Bare? && Parse(g).Tunnel?
        && |g| == |f| + Parse(g).strip && Parse(g).strip <= NR_OVERHEAD)
  }

  lemma TunnelShape(c: Rules.Config, f: seq<byte>)
    requires Parse(f).Tunnel?
    ensures var done := ActOnTunnel(c, f, Parse(f).innerSrc, Parse(f).strip);
            done.Sent? ==> Shape(f, done.frame)
  {
    hide Parse, Decap, Rewrite;
    TunnelInFrame(f);
    DecapSafe(c, f);
    var p := Parse(f);
    RewriteEffect(Source, Decap(c, f, p.strip).value, p.innerSrc, c.natIp);
    var r := c.dmac + c.smac + f[12..];
    assert forall i :: 12 <= i < |f| ==> f[i] == r[i];
    ParseIgnoresMacs(f, r);
  }

  lemma BareShape(k: Key, c: Rules.Config, f: seq<byte>, headroom: nat)
    requires Parse(f).Bare?
    ensures var done := ActOnBare(k, c, f, Parse(f).dst, headroom);
            done.Sent? ==> Shape(f, done.frame)
  {
    hide Parse, Rewrite, Encap;
    Conservation.BareLength(f);
    RewriteEffect(Destination, f, Parse(f).dst, c.natIp);
    var inner := if k.NatIp? then Rewrite(Destination, f, Parse(f).dst, c.natIp) else Some(f);
    if inner.Some? {
      var format := if k.NatIp? then Nr else Plain;
      Tunnel.EncapIff(format, c, inner.value, headroom);
      Tunnel.WrappedParses(format, c, inner.value);
    }
  }

  lemma TraverseShape(e: Env, f: seq<byte>)
    ensures Shape(f, Traverse(e, f))
  {
    hide Parse, ActOnTunnel, ActOnBare, Shape, Policy.Enforce;
    var p := Packet(f, e.headroom, e.now);
    SameShape(f);
    StepFrame(e.tx, e.table, p);
    if Chosen(e.table, p).Some? {
      var k := Chosen(e.table, p).value;
      var c := e.table[k].config;
      if Parse(f).Tunnel? {
        TunnelShape(c, f);
      } else if Parse(f).Bare? {
        BareShape(k, c, f, e.headroom);
      }
    }
  }

  lemma SameShape(f: seq<byte>)
    ensures Shape(f, f)
  {
  }

  // ----- Any number of traversals -----

  /** A frame of at most `n` bytes, or one that is so behind a single recognisable envelope. */
  ghost predicate Fits(n: nat, f: seq<byte>) {
    || |f| <= n
    || (Parse(f).Tunnel? && |f| - Parse(f).strip <= n && |f| <= n + NR_OVERHEAD)
  }

  lemma {:induction false} EveryFrameFits(envs: seq<Env>, f: seq<byte>, n: nat)
    requires n <= |envs|
    ensures Fits(|f|, FrameAfter(envs, f, n))
  {
    hide Parse, Traverse;
    if n > 0 {
      EveryFrameFits(envs, f, n - 1);
      TraverseShape(envs[n - 1], FrameAfter(envs, f, n - 1));
    }
  }

  /** Over any number of traversals a frame never grows by more than one 5G envelope. */
  lemma BoundedGrowth(envs: seq<Env>, f: seq<byte>, n: nat)
    requires n <= |envs|
    ensures |FrameAfter(envs, f, n)| <= |f| + NR_OVERHEAD
  {
    EveryFrameFits(envs, f, n);
  }

  /** Traversal `i` of a chain lengthens the frame, that is, encapsulates it. */
  ghost predicate Grows(envs: seq<Env>, f: seq<byte>, i: nat)
    requires i < |envs|
  {
    |FrameAfter(envs, f, i + 1)| > |FrameAfter(envs, f, i)|
  }

  /** Traversal `i` of a chain shortens the frame, that is, decapsulates it. */
  ghost predicate Shrinks(envs: seq<Env>, f: seq<byte>, i: nat)
    requires i < |envs|
  {
    |FrameAfter(envs, f, i + 1)| < |FrameAfter(envs, f, i)|
  }

  lemma {:induction false} StaysTunnel(envs: seq<Env>, f: seq<byte>, i: nat, j: nat)
    requires i < j < |envs| && Grows(envs, f, i)
    requires forall m :: i < m < j ==> !Shrinks(envs, f, m)
    ensures Parse(FrameAfter(envs, f, j)).Tunnel?
  {
    hide Parse, Traverse;
    var g := FrameAfter(envs, f, j - 1);
    TraverseShape(envs[j - 1], g);
    if i < j - 1 {
      StaysTunnel(envs, f, i, j - 1);
      assert !Shrinks(envs, f, j - 1);
    }
    if Parse(g).Tunnel? {
      TunnelHasStrip(g);
    }
  }

  lemma TunnelHasStrip(f: seq<byte>)
    requires Parse(f).Tunnel?
    ensures 0 < Parse(f).strip
  {
    hide Parse;
    TunnelInFrame(f);
  }

  /** An encapsulated frame is decapsulated before it is ever encapsulated again. */
  lemma DecapBetweenEncaps(envs: seq<Env>, f: seq<byte>, i: nat, j: nat)
    requires i < j < |envs| && Grows(envs, f, i) && Grows(envs, f, j)
    ensures exists m :: i < m < j && Shrinks(envs, f, m)
  {
    hide Parse, Traverse;
    if forall m :: i < m < j ==> !Shrinks(envs, f, m) {
      StaysTunnel(envs, f, i, j);
      TraverseShape(envs[j], FrameAfter(envs, f, j));
      TunnelHasStrip(FrameAfter(envs, f, j));
    }
  }
}
