/** The forwarding rule that control plane and data plane share. */
module Rules {
  import opened Bytes
  import Policy

  const ACTION_DROP: u32 := 0
  const ACTION_DECAP: u32 := 1
  const ACTION_ENCAP: u32 := 2
  const ACTION_REDIRECT: u32 := 3

  /** The configured part of a rule; addresses in host byte order. */
  datatype Config = Config(
    action: u32,
    outIfindex: u32,
    dmac: Mac,
    smac: Mac,
    teidOut: u32,
    dstIp: u32,
    srcIp: u32,
    natIp: u32,
    limits: Policy.Config)
}
