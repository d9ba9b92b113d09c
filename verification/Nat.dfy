/**
 Static 1:1 NAT: the rewrite of one address of an IPv4 packet, with incremental
 repair of the IPv4 header checksum and of the TCP or UDP checksum.
 */
module Nat {
  import opened Bytes
  import opened Checksum

  const ETH_LEN: nat := 14
  const VERSION_IHL: nat := 14
  const TOT_LEN: nat := 16
  const PROTOCOL: nat := 23
  const IP_CHECK: nat := 24
  const SADDR: nat := 26
  const DADDR: nat := 30
  const TCP: byte := 6
  const UDP: byte := 17

  /** Which address is rewritten: uplink rewrites the source, downlink the destination. */
  datatype Side = Source | Destination {
    function Offset(): nat {
      if Source? then SADDR else DADDR
    }
  }

  /** The frame holds an Ethernet header and a fixed-size IPv4 header. */
  predicate IsIpv4(f: seq<byte>) {
    |f| >= 34 && f[VERSION_IHL] / 16 == 4
  }

  /** The length of the IPv4 header in bytes. */
  function HeaderLen(f: seq<byte>): nat
    requires |f| >= 34
  {
    (f[VERSION_IHL] % 16) * 4
  }

  /** The new address in place and the IPv4 header checksum repaired. */
  function RewriteIp(side: Side, f: seq<byte>, oldVal: u32, newVal: u32): seq<byte>
    requires |f| >= 34
  {
    var addressed := Put32(f, side.Offset(), newVal);
    Put16(addressed, IP_CHECK, Update(Be16(addressed, IP_CHECK), oldVal, newVal))
  }

  /** The layer-4 checksum at `at` repaired; a stored zero is left alone. */
  function RepairL4(f: seq<byte>, at: nat, oldVal: u32, newVal: u32): seq<byte>
    requires at + 2 <= |f|
  {
    if Be16(f, at) == 0 then f else Put16(f, at, Update(Be16(f, at), oldVal, newVal))
  }

  /** The rewrite of one address; `None` is the error return. */
  function Rewrite(side: Side, f: seq<byte>, oldVal: u32, newVal: u32): Option<seq<byte>> {
    if !IsIpv4(f) then None else
    var g := RewriteIp(side, f, oldVal, newVal);
    var l4 := ETH_LEN + HeaderLen(g);
    if l4 < 34 then None
    else if g[PROTOCOL] == TCP then
      if l4 + 20 > |g| then None else Some(RepairL4(g, l4 + 16, oldVal, newVal))
    else if g[PROTOCOL] == UDP then
      if l4 + 8 > |g| then None else Some(RepairL4(g, l4 + 6, oldVal, newVal))
    else Some(g)
  }

  // ----- What the rewrite does, field by field -----

  /** The offset of the layer-4 checksum, for protocols whose checksum covers the addresses. */
  function L4Check(f: seq<byte>): Option<nat>
    requires |f| >= 34
  {
    if f[PROTOCOL] == TCP then Some(ETH_LEN + HeaderLen(f) + 16)
    else if f[PROTOCOL] == UDP then Some(ETH_LEN + HeaderLen(f) + 6)
    else None
  }

  /** The layer-4 header the code looks for would fit behind the IPv4 header. */
  predicate RoomForL4(f: seq<byte>)
    requires |f| >= 34
  {
    && (f[PROTOCOL] == TCP ==> ETH_LEN + HeaderLen(f) + 20 <= |f|)
    && (f[PROTOCOL] == UDP ==> ETH_LEN + HeaderLen(f) + 8 <= |f|)
  }

  /** Frames whose addresses can be rewritten. */
  predicate Rewritable(f: seq<byte>) {
    IsIpv4(f) && HeaderLen(f) >= 20 && RoomForL4(f)
  }

  /** The bytes of the address and of the header checksum. */
  ghost predicate InIp(side: Side, i: nat) {
    (if side.Source? then 26 <= i < 30 else 30 <= i < 34) || 24 <= i < 26
  }

  /** The bytes a rewrite may touch. */
  ghost predicate Touched(side: Side, f: seq<byte>, i: nat)
    requires |f| >= 34
  {
    || InIp(side, i)
    || (f[23] == 6 && HeaderLen(f) + 30 <= i < HeaderLen(f) + 32)
    || (f[23] == 17 && HeaderLen(f) + 20 <= i < HeaderLen(f) + 22)
  }

  lemma RewriteIpEffect(side: Side, f: seq<byte>, oldVal: u32, newVal: u32)
    requires |f| >= 34
    ensures var g := RewriteIp(side, f, oldVal, newVal);
            && |g| == |f|
            && Be32(g, side.Offset()) == newVal
            && Be16(g, IP_CHECK) == Update(Be16(f, IP_CHECK), oldVal, newVal)
            && (forall i :: 0 <= i < |f| && !InIp(side, i) ==> g[i] == f[i])
  {
    hide Update, Put16, Put32;
  }

  lemma RepairL4Effect(f: seq<byte>, at: nat, oldVal: u32, newVal: u32)
    requires at + 2 <= |f|
    ensures var g := RepairL4(f, at, oldVal, newVal);
            && |g| == |f|
            && Be16(g, at) == (if Be16(f, at) == 0 then 0 else Update(Be16(f, at), oldVal, newVal))
            && (forall i :: 0 <= i < |f| && !(at <= i < at + 2) ==> g[i] == f[i])
  {
    hide Update, Put16;
  }

  /**
   The rewrite succeeds exactly on rewritable frames, puts the new address in
   place, repairs the checksums and changes nothing else.
   */
  lemma RewriteEffect(side: Side, f: seq<byte>, oldVal: u32, newVal: u32)
    ensures Rewrite(side, f, oldVal, newVal).Some? <==> Rewritable(f)
    ensures Rewritable(f) ==>
              var g := Rewrite(side, f, oldVal, newVal).value;
              && |g| == |f|
              && Be32(g, side.Offset()) == newVal
              && Be16(g, IP_CHECK) == Update(Be16(f, IP_CHECK), oldVal, newVal)
              && HeaderLen(g) == HeaderLen(f) && L4Check(g) == L4Check(f) && Rewritable(g)
              && (L4Check(f).Some? ==>
                    var at := L4Check(f).value;
                    at + 2 <= |f|
                    && Be16(g, at) == if Be16(f, at) == 0 then 0 else Update(Be16(f, at), oldVal, newVal))
              && (forall i :: 0 <= i < |f| && !Touched(side, f, i) ==> g[i] == f[i])
  {
    hide Update, RepairL4, RewriteIp;
    if Rewritable(f) {
      RewriteIpEffect(side, f, oldVal, newVal);
      if L4Check(f).Some? {
        RepairL4Effect(RewriteIp(side, f, oldVal, newVal), L4Check(f).value, oldVal, newVal);
      }
    } else if |f| >= 34 {
      RewriteIpEffect(side, f, oldVal, newVal);
    }
  }

  // ----- Later fragments -----

  /** A fragment that does not begin its datagram: it holds no layer-4 header. */
  predicate LaterFragment(f: seq<byte>)
    requires |f| >= 34
  {
    Be16(f, 20) % 0x2000 != 0
  }

  /** The rewrite leaves everything behind the IPv4 header as it was. */
  ghost predicate PayloadKept(f: seq<byte>, g: seq<byte>)
    requires |f| == |g| >= 34
  {
    forall i :: ETH_LEN + HeaderLen(f) <= i < |f| ==> g[i] == f[i]
  }

  /** The two bytes at the place of a layer-4 checksum come out of the rewrite as they went in. */
  predicate Untouchable(c: u16, oldVal: u32, newVal: u32) {
    || c == 0
    || (c == 0xffff && Halves(oldVal) == 2 * 0xffff && Halves(newVal) == 0)
    || (c != 0xffff && Halves(oldVal) % 0xffff == Halves(newVal) % 0xffff)
  }

  /**
   All NAT should do to a later fragment is exchange the address. The code treats
   it like any packet: it succeeds and leaves the payload alone exactly when the
   protocol is neither TCP nor UDP, or the payload is long enough to pass for a
   layer-4 header and the two bytes taken for its checksum are untouchable.
   */
  lemma FragmentSurvivesIff(side: Side, f: seq<byte>, oldVal: u32, newVal: u32)
    requires IsIpv4(f) && HeaderLen(f) >= 20 && LaterFragment(f)
    ensures var r := Rewrite(side, f, oldVal, newVal);
            (r.Some? && |r.value| == |f| && PayloadKept(f, r.value))
            <==> (L4Check(f).None?
                  || (RoomForL4(f) && Untouchable(Be16(f, L4Check(f).value), oldVal, newVal)))
  {
    hide Update, Rewrite;
    RewriteEffect(side, f, oldVal, newVal);
    if RoomForL4(f) && L4Check(f).Some? {
      var g := Rewrite(side, f, oldVal, newVal).value;
      var at := L4Check(f).value;
      UpdateFixedIff(Be16(f, at), oldVal, newVal);
      if Be16(f, at) == Be16(g, at) {
        SameField16(f, g, at);
      }
    }
  }

  // ----- Header checksum -----

  /** The whole IPv4 header, options included, is in the frame. */
  predicate HeaderPresent(f: seq<byte>) {
    IsIpv4(f) && HeaderLen(f) >= 20 && ETH_LEN + HeaderLen(f) <= |f|
  }

  /** The sum a receiver forms over the IPv4 header (RFC 791 section 3.1). */
  function HeaderSum(f: seq<byte>): nat
    requires HeaderPresent(f)
  {
    WordSum(f[ETH_LEN..ETH_LEN + HeaderLen(f)])
  }

  predicate HeaderValid(f: seq<byte>)
    requires HeaderPresent(f)
  {
    Valid(HeaderSum(f))
  }

  lemma SumSplit(f: seq<byte>, lo: nat, at: nat, n: nat, hi: nat)
    requires lo <= at && at + n <= hi <= |f| && (at - lo) % 2 == 0 && n % 2 == 0
    ensures WordSum(f[lo..hi]) == WordSum(f[lo..at]) + WordSum(f[at..at + n]) + WordSum(f[at + n..hi])
  {
    assert f[lo..hi] == f[lo..at] + f[at..hi];
    WordSumConcat(f[lo..at], f[at..hi]);
    assert f[at..hi] == f[at..at + n] + f[at + n..hi];
    WordSumConcat(f[at..at + n], f[at + n..hi]);
  }

  /** The sum over a range of the frame when some of its words change. */
  lemma SumExchange(f: seq<byte>, g: seq<byte>, lo: nat, at: nat, n: nat, hi: nat)
    requires |f| == |g| && lo <= at && at + n <= hi <= |f| && (at - lo) % 2 == 0 && n % 2 == 0
    requires forall i :: lo <= i < hi && !(at <= i < at + n) ==> g[i] == f[i]
    ensures WordSum(g[lo..hi]) == WordSum(f[lo..hi]) - WordSum(f[at..at + n]) + WordSum(g[at..at + n])
  {
    hide WordSum;
    SumSplit(f, lo, at, n, hi);
    SumSplit(g, lo, at, n, hi);
    assert f[lo..at] == g[lo..at];
    assert f[at + n..hi] == g[at + n..hi];
  }

  lemma Word16At(f: seq<byte>, at: nat)
    requires at + 2 <= |f|
    ensures WordSum(f[at..at + 2]) == Be16(f, at)
  {
    WordSum16(f[at..at + 2]);
  }

  lemma Word32At(f: seq<byte>, at: nat)
    requires at + 4 <= |f|
    ensures WordSum(f[at..at + 4]) == Halves(Be32(f, at))
  {
    WordSum32(f[at..at + 4]);
  }

  lemma HeaderSumChange(side: Side, f: seq<byte>, newVal: u32)
    requires Rewritable(f) && HeaderPresent(f)
    ensures var oldVal := Be32(f, side.Offset());
            var g := Rewrite(side, f, oldVal, newVal);
            g.Some? && HeaderPresent(g.value)
            && HeaderSum(g.value) == HeaderSum(f) - Be16(f, IP_CHECK) - Halves(oldVal)
                                     + Update(Be16(f, IP_CHECK), oldVal, newVal) + Halves(newVal)
  {
    hide Update, Halves, Rewrite, WordSum, Rewritable;
    var o := side.Offset();
    var oldVal := Be32(f, o);
    RewriteEffect(side, f, oldVal, newVal);
    var g := Rewrite(side, f, oldVal, newVal).value;
    assert g[VERSION_IHL] == f[VERSION_IHL];
    var e := ETH_LEN + HeaderLen(f);
    var mid := f[IP_CHECK := g[IP_CHECK]][IP_CHECK + 1 := g[IP_CHECK + 1]];
    SumExchange(f, mid, ETH_LEN, IP_CHECK, 2, e);
    SumExchange(mid, g, ETH_LEN, o, 4, e);
    Word16At(f, IP_CHECK);
    Word16At(mid, IP_CHECK);
    Word32At(mid, o);
    Word32At(g, o);
    assert Be32(mid, o) == oldVal;
  }

  /** A rewrite keeps a valid IPv4 header valid and a corrupt one corrupt. */
  lemma HeaderValidityKept(side: Side, f: seq<byte>, newVal: u32)
    requires Rewritable(f) && HeaderPresent(f)
    ensures var g := Rewrite(side, f, Be32(f, side.Offset()), newVal);
            g.Some? && HeaderPresent(g.value) && (HeaderValid(g.value) <==> HeaderValid(f))
  {
    hide Update, Halves, Rewrite, WordSum, Valid;
    var oldVal := Be32(f, side.Offset());
    HeaderSumChange(side, f, newVal);
    var g := Rewrite(side, f, oldVal, newVal).value;
    var k := UpdateBalances(Be16(f, IP_CHECK), oldVal, newVal);
    HeaderSumPositive(f);
    HeaderSumPositive(g);
    ValidAlike(HeaderSum(g), HeaderSum(f), k);
  }

  /** The IPv4 header with its checksum field zeroed: what a sender sums. */
  function BlankedHeader(f: seq<byte>): seq<byte>
    requires HeaderPresent(f)
  {
    Patch(f[ETH_LEN..ETH_LEN + HeaderLen(f)], IP_CHECK - ETH_LEN, [0, 0])
  }

  /** The stored checksum is the one a sender computes from scratch. */
  predicate HeaderComputed(f: seq<byte>)
    requires HeaderPresent(f)
  {
    Be16(f, IP_CHECK) == Full(BlankedHeader(f))
  }

  /** After a rewrite the header's checksum is, bit for bit, the one recomputed from scratch. */
  lemma RewriteRecomputes(side: Side, f: seq<byte>, newVal: u32)
    requires Rewritable(f) && HeaderPresent(f) && HeaderComputed(f)
    ensures var g := Rewrite(side, f, Be32(f, side.Offset()), newVal);
            g.Some? && HeaderPresent(g.value) && HeaderComputed(g.value)
  {
    hide Update, Rewrite, WordSum, Full, BlankedHeader, Rewritable, Be16, Be32, InIp;
    var o := side.Offset();
    HeaderAfterRewrite(side, f, newVal);
    var g := Rewrite(side, f, Be32(f, o), newVal).value;
    BlankedField(f, o);
    BlankedChange(side, f, g);
    UpdateRefinesFull(BlankedHeader(f), o - ETH_LEN, newVal);
  }

  /** What a rewrite does to the IPv4 header alone. */
  lemma HeaderAfterRewrite(side: Side, f: seq<byte>, newVal: u32)
    requires Rewritable(f) && HeaderPresent(f)
    ensures var oldVal := Be32(f, side.Offset());
            var g := Rewrite(side, f, oldVal, newVal);
            && g.Some? && |g.value| == |f| && HeaderPresent(g.value) && g.value[VERSION_IHL] == f[VERSION_IHL]
            && Be32(g.value, side.Offset()) == newVal
            && Be16(g.value, IP_CHECK) == Update(Be16(f, IP_CHECK), oldVal, newVal)
            && forall i :: ETH_LEN <= i < ETH_LEN + HeaderLen(f) && !InIp(side, i) ==> g.value[i] == f[i]
  {
    hide Update, Rewrite;
    RewriteEffect(side, f, Be32(f, side.Offset()), newVal);
  }

  /** Zeroing the checksum field leaves the address as the only place where the two headers differ. */
  lemma BlankedChange(side: Side, f: seq<byte>, g: seq<byte>)
    requires HeaderPresent(f) && HeaderPresent(g) && |f| == |g| && g[VERSION_IHL] == f[VERSION_IHL]
    requires forall i :: ETH_LEN <= i < ETH_LEN + HeaderLen(f) && !InIp(side, i) ==> g[i] == f[i]
    ensures var h, o := BlankedHeader(f), side.Offset();
            |h| == HeaderLen(f) && h[0] == f[VERSION_IHL] && o - ETH_LEN + 4 <= |h|
            && BlankedHeader(g) == Patch(h, o - ETH_LEN, Enc32(Be32(g, o)))
  {
    var h, k := BlankedHeader(f), BlankedHeader(g);
    BlankedField(g, side.Offset());
    SameOutsideField(h, k, side.Offset() - ETH_LEN);
  }

  lemma BlankedField(f: seq<byte>, o: nat)
    requires HeaderPresent(f) && IP_CHECK + 2 <= o && o + 4 <= 34
    ensures Be32(BlankedHeader(f), o - ETH_LEN) == Be32(f, o)
  {
  }

  lemma SameOutsideField(h: seq<byte>, k: seq<byte>, o: nat)
    requires o + 4 <= |h| == |k| && forall i :: 0 <= i < |h| && !(o <= i < o + 4) ==> k[i] == h[i]
    ensures k == Patch(h, o, Enc32(Be32(k, o)))
  {
    Be32Bytes(k, o);
    var p := Patch(h, o, k[o..o + 4]);
    assert forall i :: 0 <= i < |h| ==> p[i] == k[i];
  }

  lemma HeaderSumPositive(f: seq<byte>)
    requires HeaderPresent(f)
    ensures HeaderSum(f) > 0
  {
    var h := f[ETH_LEN..ETH_LEN + HeaderLen(f)];
    assert h[0] == f[VERSION_IHL];
  }

  // ----- Layer-4 checksum -----

  /** The packet is no fragment: neither an offset nor the more-fragments flag is set. */
  predicate Unfragmented(f: seq<byte>)
    requires |f| >= 34
  {
    Be16(f, 20) % 0x4000 == 0
  }

  /** What a receiver takes for the length of the segment: UDP has a length field of its own (RFC 768). */
  function SegmentLen(f: seq<byte>): int
    requires Rewritable(f)
  {
    if f[PROTOCOL] == UDP then Be16(f, ETH_LEN + HeaderLen(f) + 4) else Be16(f, TOT_LEN) - HeaderLen(f)
  }

  /**
   The frame holds the whole layer-4 segment of an unfragmented TCP or UDP packet,
   and the segment is long enough to hold its checksum.
   */
  predicate SegmentPresent(f: seq<byte>) {
    && Rewritable(f)
    && Unfragmented(f)
    && L4Check(f).Some?
    && ETH_LEN + Be16(f, TOT_LEN) <= |f|
    && SegmentLen(f) <= Be16(f, TOT_LEN) - HeaderLen(f)
    && L4Check(f).value + 2 <= ETH_LEN + HeaderLen(f) + SegmentLen(f)
  }

  /** The sum a receiver forms over pseudo-header and segment. */
  function SegmentSum(f: seq<byte>): nat
    requires SegmentPresent(f)
  {
    var l4 := ETH_LEN + HeaderLen(f);
    WordSum(f[SADDR..SADDR + 8]) + f[PROTOCOL] + SegmentLen(f) + WordSum(f[l4..l4 + SegmentLen(f)])
  }

  predicate SegmentValid(f: seq<byte>)
    requires SegmentPresent(f)
  {
    Valid(SegmentSum(f))
  }

  /** A rewrite moves no length and no boundary of the segment. */
  lemma SegmentStays(side: Side, f: seq<byte>, oldVal: u32, newVal: u32)
    requires SegmentPresent(f)
    ensures var g := Rewrite(side, f, oldVal, newVal);
            var at, l4 := L4Check(f).value, ETH_LEN + HeaderLen(f);
            && g.Some? && |g.value| == |f| && SegmentPresent(g.value) && L4Check(g.value) == Some(at)
            && HeaderLen(g.value) == HeaderLen(f) && g.value[PROTOCOL] == f[PROTOCOL]
            && SegmentLen(g.value) == SegmentLen(f)
            && (forall i :: SADDR <= i < SADDR + 8 && !(side.Offset() <= i < side.Offset() + 4) ==> g.value[i] == f[i])
            && (forall i :: l4 <= i < l4 + SegmentLen(f) && !(at <= i < at + 2) ==> g.value[i] == f[i])
            && Be32(g.value, side.Offset()) == newVal
            && Be16(g.value, at) == if Be16(f, at) == 0 then 0 else Update(Be16(f, at), oldVal, newVal)
  {
    hide Update, Rewrite;
    RewriteEffect(side, f, oldVal, newVal);
  }

  lemma SegmentSumChange(side: Side, f: seq<byte>, newVal: u32)
    requires SegmentPresent(f)
    ensures var oldVal := Be32(f, side.Offset());
            var g := Rewrite(side, f, oldVal, newVal);
            var at := L4Check(f).value;
            g.Some? && SegmentPresent(g.value) && L4Check(g.value) == Some(at)
            && SegmentSum(g.value) == SegmentSum(f) - Be16(f, at) - Halves(oldVal) + Be16(g.value, at) + Halves(newVal)
            && Be16(g.value, at) == if Be16(f, at) == 0 then 0 else Update(Be16(f, at), oldVal, newVal)
  {
    hide Update, Halves, Rewrite, WordSum, RoomForL4, Be16, Be32;
    var o := side.Offset();
    var oldVal := Be32(f, o);
    SegmentStays(side, f, oldVal, newVal);
    var g := Rewrite(side, f, oldVal, newVal).value;
    var at := L4Check(f).value;
    var lo := ETH_LEN + HeaderLen(f);
    SumExchange(f, g, SADDR, o, 4, SADDR + 8);
    SumExchange(f, g, lo, at, 2, lo + SegmentLen(f));
    Word32At(f, o);
    Word32At(g, o);
    Word16At(f, at);
    Word16At(g, at);
  }

  /** With a nonzero stored checksum, a rewrite keeps a valid segment valid and a corrupt one corrupt. */
  lemma SegmentValidityKept(side: Side, f: seq<byte>, newVal: u32)
    requires SegmentPresent(f) && Be16(f, L4Check(f).value) != 0
    ensures var g := Rewrite(side, f, Be32(f, side.Offset()), newVal);
            g.Some? && SegmentPresent(g.value) && (SegmentValid(g.value) <==> SegmentValid(f))
  {
    hide Update, Halves, Rewrite, WordSum, Valid;
    var oldVal := Be32(f, side.Offset());
    SegmentSumChange(side, f, newVal);
    var g := Rewrite(side, f, oldVal, newVal).value;
    var k := UpdateBalances(Be16(f, L4Check(f).value), oldVal, newVal);
    ValidAlike(SegmentSum(g), SegmentSum(f), k);
  }

  /** A receiver accepts the segment: its sum is right, or it is UDP without a checksum. */
  predicate Accepted(f: seq<byte>)
    requires SegmentPresent(f)
  {
    (f[PROTOCOL] == UDP && Be16(f, L4Check(f).value) == 0) || SegmentValid(f)
  }

  /** What a caller can tell beforehand about the acceptance of the rewritten segment. */
  predicate AcceptedAfter(f: seq<byte>, oldVal: u32, newVal: u32)
    requires SegmentPresent(f)
  {
    var c := Be16(f, L4Check(f).value);
    if f[PROTOCOL] == UDP then c == 0 || SegmentValid(f) || YieldsZero(c, oldVal, newVal)
    else if c == 0 then (SegmentSum(f) + Halves(newVal)) % 0xffff == Halves(oldVal) % 0xffff
    else SegmentValid(f)
  }

  lemma RewrittenSegment(side: Side, f: seq<byte>, newVal: u32)
    requires SegmentPresent(f)
    ensures var g := Rewrite(side, f, Be32(f, side.Offset()), newVal);
            g.Some? && SegmentPresent(g.value) && L4Check(g.value) == L4Check(f)
            && g.value[PROTOCOL] == f[PROTOCOL] && (f[PROTOCOL] == TCP || f[PROTOCOL] == UDP)
            && L4Check(f).Some? && L4Check(f).value + 2 <= |f| == |g.value| && |f| >= 34
  {
    hide Update, Rewrite;
    RewriteEffect(side, f, Be32(f, side.Offset()), newVal);
  }

  /** The rewritten segment is accepted exactly when that could be told beforehand. */
  lemma AcceptedIff(side: Side, f: seq<byte>, newVal: u32)
    requires SegmentPresent(f)
    ensures var oldVal := Be32(f, side.Offset());
            var g := Rewrite(side, f, oldVal, newVal);
            g.Some? && SegmentPresent(g.value)
            && (Accepted(g.value) <==> AcceptedAfter(f, oldVal, newVal))
  {
    hide Update, Halves, Rewrite, WordSum, Valid, YieldsZero, SegmentSum, SegmentPresent;
    RewrittenSegment(side, f, newVal);
    var oldVal := Be32(f, side.Offset());
    SegmentSumChange(side, f, newVal);
    var g := Rewrite(side, f, oldVal, newVal).value;
    var c := Be16(f, L4Check(f).value);
    if c != 0 {
      SegmentValidityKept(side, f, newVal);
      UpdateZeroIff(c, oldVal, newVal);
    } else if f[PROTOCOL] == TCP {
      ValidIff(SegmentSum(g));
      SegmentSumPositive(g);
      SumShift(SegmentSum(f), Halves(oldVal), Halves(newVal));
    }
  }

  lemma SegmentSumPositive(f: seq<byte>)
    requires SegmentPresent(f)
    ensures SegmentSum(f) > 0
  {
    hide WordSum;
  }

  lemma SumShift(sum: nat, a: nat, b: nat)
    requires sum - a + b >= 0
    ensures (sum - a + b) % 0xffff == 0 <==> (sum + b) % 0xffff == a % 0xffff
  {
  }

  /**
   A rewrite keeps a segment accepted or refused exactly when: for UDP, it was
   valid, carried no checksum, or the update does not happen to yield zero; for
   TCP, the stored checksum is not zero, or the addresses do not matter to the sum.
   */
  lemma AcceptanceKeptIff(side: Side, f: seq<byte>, newVal: u32)
    requires SegmentPresent(f)
    ensures var oldVal := Be32(f, side.Offset());
            var g := Rewrite(side, f, oldVal, newVal);
            var c := Be16(f, L4Check(f).value);
            g.Some? && SegmentPresent(g.value)
            && ((Accepted(g.value) <==> Accepted(f)) <==>
                  if f[PROTOCOL] == UDP then c == 0 || SegmentValid(f) || !YieldsZero(c, oldVal, newVal)
                  else c != 0 || (SegmentSum(f) % 0xffff == 0
                                  <==> (SegmentSum(f) + Halves(newVal)) % 0xffff == Halves(oldVal) % 0xffff))
  {
    hide Update, Halves, Rewrite, WordSum, Valid, YieldsZero, SegmentSum, SegmentPresent;
    RewrittenSegment(side, f, newVal);
    AcceptedIff(side, f, newVal);
    SegmentSumPositive(f);
    ValidIff(SegmentSum(f));
  }

  /**
   A stored zero is left alone. A segment accepted with it - UDP without a
   checksum, or TCP whose checksum happens to be zero, for TCP has no "no
   checksum" value - stays accepted exactly when it is UDP or the two addresses
   have congruent sums.
   */
  lemma ZeroChecksumSegment(side: Side, f: seq<byte>, newVal: u32)
    requires SegmentPresent(f) && Be16(f, L4Check(f).value) == 0 && Accepted(f)
    ensures var oldVal := Be32(f, side.Offset());
            var g := Rewrite(side, f, oldVal, newVal);
            g.Some? && SegmentPresent(g.value)
            && (Accepted(g.value) <==> f[PROTOCOL] == UDP || Halves(oldVal) % 0xffff == Halves(newVal) % 0xffff)
  {
    hide Update, Halves, Rewrite, WordSum, Valid, SegmentSum, SegmentPresent;
    RewrittenSegment(side, f, newVal);
    AcceptedIff(side, f, newVal);
    ValidIff(SegmentSum(f));
    if f[PROTOCOL] == TCP {
      ZeroShift(SegmentSum(f), Halves(Be32(f, side.Offset())), Halves(newVal));
    }
  }

  lemma ZeroShift(sum: nat, a: nat, b: nat)
    requires sum % 0xffff == 0
    ensures (sum + b) % 0xffff == a % 0xffff <==> a % 0xffff == b % 0xffff
  {
  }

  // ----- Round trip -----

  /** What a caller can check before rewriting `f`: the checksums whose repair can be undone. */
  predicate Restorable(f: seq<byte>, oldVal: u32, newVal: u32)
    requires Rewritable(f)
  {
    && Be16(f, IP_CHECK) != 0xffff
    && (L4Check(f).Some? ==>
          var c := Be16(f, L4Check(f).value);
          c == 0 || (c != 0xffff && !YieldsZero(c, oldVal, newVal)))
  }

  /**
   Rewriting an address U to N and then N back to U restores the packet byte
   for byte exactly when its checksums are restorable.
   */
  lemma RewriteRoundTrip(side: Side, f: seq<byte>, newVal: u32)
    requires Rewritable(f)
    ensures var oldVal := Be32(f, side.Offset());
            var g := Rewrite(side, f, oldVal, newVal);
            g.Some? && Rewrite(side, g.value, newVal, oldVal).Some?
            && (Rewrite(side, g.value, newVal, oldVal).value == f <==> Restorable(f, oldVal, newVal))
  {
    hide Update, Rewrite;
    var o := side.Offset();
    var oldVal := Be32(f, o);
    RewriteEffect(side, f, oldVal, newVal);
    var g := Rewrite(side, f, oldVal, newVal).value;
    RewriteEffect(side, g, newVal, oldVal);
    var h := Rewrite(side, g, newVal, oldVal).value;
    UpdateRoundTrip(Be16(f, IP_CHECK), oldVal, newVal);
    if L4Check(f).Some? {
      UpdateRoundTrip(Be16(f, L4Check(f).value), oldVal, newVal);
      UpdateZeroIff(Be16(f, L4Check(f).value), oldVal, newVal);
    }
    if Restorable(f, oldVal, newVal) {
      SameField32(h, f, o);
      SameField16(h, f, IP_CHECK);
      if L4Check(f).Some? {
        SameField16(h, f, L4Check(f).value);
      }
      assert forall i :: 0 <= i < |f| ==> h[i] == f[i];
    }
  }

  lemma SameField16(f: seq<byte>, g: seq<byte>, o: nat)
    requires o + 2 <= |f| == |g| && Be16(f, o) == Be16(g, o)
    ensures f[o] == g[o] && f[o + 1] == g[o + 1]
  {
  }

  lemma SameField32(f: seq<byte>, g: seq<byte>, o: nat)
    requires o + 4 <= |f| == |g| && Be32(f, o) == Be32(g, o)
    ensures f[o] == g[o] && f[o + 1] == g[o + 1] && f[o + 2] == g[o + 2] && f[o + 3] == g[o + 3]
  {
    SplitWords(Be16(f, o), Be16(f, o + 2));
    SplitWords(Be16(g, o), Be16(g, o + 2));
    SameField16(f, g, o);
    SameField16(f, g, o + 2);
  }
}
