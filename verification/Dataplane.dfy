/**
 The packet program as a step function: recognise the frame, select a rule,
 apply the rule's policy, perform its action, count, and decide a verdict.
 */
module Dataplane {
  import opened Bytes
  import opened Nat
  import opened Gtpu
  import Policy
  import Rules

  /** The keys of teid_map, ueip_map and nat_map, as one tagged family. */
  datatype Key = Teid(teid: u32) | UeIp(ip: u32) | NatIp(ip: u32)

  /** A map value: configuration, policy state and traffic counters. */
  datatype Rule = Rule(config: Rules.Config, policy: Policy.State, pktCount: u64, byteCount: u64) {
    function Bumped(bytes: nat): Rule {
      this.(pktCount := Wrap64(pktCount + 1), byteCount := Wrap64(byteCount + bytes))
    }
  }

  type Table = map<Key, Rule>

  /** A frame with the free space in front of it and the clock at its arrival. */
  datatype Packet = Packet(frame: seq<byte>, headroom: nat, now: u64)

  datatype Verdict = Aborted | Drop | Pass | Redirect(ifindex: u32)

  /** The slots of the verdict statistics. */
  datatype Slot = PassSlot | DropSlot | RedirectSlot

  datatype Result = Result(verdict: Verdict, slot: Option<Slot>, table: Table, frame: seq<byte>)

  /** The rule that decides about a frame. */
  function Select(t: Table, p: Parsed): Option<Key> {
    match p
    case Tunnel(teid, ueIp, _, _) =>
      if Teid(teid) in t then Some(Teid(teid))
      else if UeIp(ueIp) in t then Some(UeIp(ueIp))
      else None
    case Bare(dst) =>
      if NatIp(dst) in t && t[NatIp(dst)].config.action == Rules.ACTION_ENCAP then Some(NatIp(dst))
      else if UeIp(dst) in t && t[UeIp(dst)].config.action == Rules.ACTION_ENCAP then Some(UeIp(dst))
      else None
    case _ => None
  }

  /** How the action of a rule ends. */
  datatype Done = Sent(frame: seq<byte>) | Discarded | ToStack | Failed

  /** The action on a tunnelled frame. */
  function ActOnTunnel(c: Rules.Config, f: seq<byte>, innerSrc: u32, strip: nat): Done
    requires |f| >= ETH_LEN
  {
    if c.action == Rules.ACTION_DROP then Discarded
    else if c.action == Rules.ACTION_DECAP then
      match Decap(c, f, strip)
      case None => Failed
      case Some(g) =>
        if c.natIp == 0 then Sent(g)
        else match Rewrite(Source, g, innerSrc, c.natIp)
          case None => Failed
          case Some(h) => Sent(h)
    else if c.action == Rules.ACTION_REDIRECT then Sent(c.dmac + c.smac + f[12..])
    else if c.action == Rules.ACTION_ENCAP then ToStack
    else Failed
  }

  /** The encapsulation of a bare frame; a nat_map rule first restores the subscriber's address. */
  function ActOnBare(k: Key, c: Rules.Config, f: seq<byte>, dst: u32, headroom: nat): Done {
    var inner := if k.NatIp? then Rewrite(Destination, f, dst, c.natIp) else Some(f);
    match inner
    case None => Failed
    case Some(g) =>
      match Encap(if k.NatIp? then Nr else Plain, c, g, headroom)
      case None => Failed
      case Some(h) => Sent(h)
  }

  function Act(k: Key, c: Rules.Config, p: Packet): Done {
    match Parse(p.frame)
    case Tunnel(_, _, innerSrc, strip) => ActOnTunnel(c, p.frame, innerSrc, strip)
    case Bare(dst) => ActOnBare(k, c, p.frame, dst, p.headroom)
    case _ => Failed
  }

  /** The policy decision of rule `k` about a packet. */
  function Decide(t: Table, k: Key, now: u64): Policy.Decision
    requires k in t
  {
    Policy.Enforce(t[k].config.limits, t[k].policy, now)
  }

  /** A redirect succeeds only towards a provisioned egress port. */
  function RedirectOut(tx: set<u32>, ifindex: u32): Verdict {
    if ifindex in tx then Redirect(ifindex) else Aborted
  }

  /** What rule `k` does with a packet. */
  function Apply(tx: set<u32>, t: Table, k: Key, p: Packet): Result
    requires k in t
  {
    var d := Decide(t, k, p.now);
    var rule := t[k].(policy := d.state);
    if d.verdict != Policy.Admit then
      Result(Drop, Some(DropSlot), t[k := rule.Bumped(|p.frame|)], p.frame)
    else
      match Act(k, rule.config, p)
      case Sent(g) =>
        Result(RedirectOut(tx, rule.config.outIfindex), Some(RedirectSlot), t[k := rule.Bumped(|p.frame|)], g)
      case Discarded => Result(Drop, Some(DropSlot), t[k := rule.Bumped(|p.frame|)], p.frame)
      case ToStack => Result(Pass, Some(PassSlot), t[k := rule], p.frame)
      case Failed => Result(Drop, Some(DropSlot), t[k := rule], p.frame)
  }

  /** One packet through the program. */
  function Step(tx: set<u32>, t: Table, p: Packet): Result {
    var parsed := Parse(p.frame);
    match parsed
    case Truncated => Result(Drop, None, t, p.frame)
    case Stack => Result(Pass, Some(PassSlot), t, p.frame)
    case Bad => Result(Drop, Some(DropSlot), t, p.frame)
    case _ =>
      match Select(t, parsed)
      case None => Result(Pass, Some(PassSlot), t, p.frame)
      case Some(k) => Apply(tx, t, k, p)
  }

  // ----- What every packet keeps -----

  /** Same keys, same configurations. */
  ghost predicate SameRules(t: Table, u: Table) {
    t.Keys == u.Keys && forall k :: k in t ==> t[k].config == u[k].config
  }

  lemma SelectSame(t: Table, u: Table, p: Parsed)
    requires SameRules(t, u)
    ensures Select(t, p) == Select(u, p)
    ensures Select(t, p).Some? ==> Select(t, p).value in t
  {
  }

  /** The rule that decides about a packet, if any. */
  function Chosen(t: Table, p: Packet): Option<Key> {
    Select(t, Parse(p.frame))
  }

  /** A packet changes no rule but the one that decides about it, and no configuration. */
  lemma StepFrame(tx: set<u32>, t: Table, p: Packet)
    ensures var u := Step(tx, t, p).table;
            && SameRules(t, u)
            && (Chosen(t, p).None? ==> u == t)
            && (Chosen(t, p).Some? ==>
                  var k := Chosen(t, p).value;
                  && k in t && Step(tx, t, p) == Apply(tx, t, k, p)
                  && u[k].policy == Decide(t, k, p.now).state
                  && forall j :: j in t && j != k ==> u[j] == t[j])
  {
    hide Parse, Act, Policy.Enforce;
  }
}
