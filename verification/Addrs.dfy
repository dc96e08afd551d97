/** Canonical addresses of pkg/ipametcd: a family and a number of 32 or 128 bits. */
module Addrs {

  datatype Option<+T> = None | Some(value: T)

  datatype RawAddr = RawAddr(v6: bool, n: nat)

  /** How many addresses a family has. */
  function Width(v6: bool): nat {
    if v6 then 0x1_0000_0000_0000_0000_0000_0000_0000_0000 else 0x1_0000_0000
  }

  type Addr = a: RawAddr | a.n < Width(a.v6) witness RawAddr(false, 0)
}
