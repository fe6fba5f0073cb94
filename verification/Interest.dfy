/** Registered interest as every poller backend presents it: one entry per descriptor. */
module Interest {

  /** NP_RABLE and NP_WABLE. */
  datatype Mask = Mask(r: bool, w: bool)

  const NONE := Mask(false, false)

  datatype Reg = Reg(mask: Mask, owner: nat)
}
