/** Capabilities with exact bounds, and the 16-byte granules that hold them in memory. */
module Capabilities {
  import opened Words

  datatype Perm = LOAD | LOAD_CAP | STORE | STORE_CAP | EXECUTE | EXECUTIVE

  datatype Cap = Cap(tag: bool, addr: u64, base: nat, limit: nat, perms: set<Perm>) {
    // The bytes this capability lets its holder overwrite.
    ghost predicate CanStore(a: nat) {
      tag && STORE in perms && base <= a < limit
    }

    // No more authority than c: what CHERI's monotonicity allows to be made from c.
    predicate DerivedFrom(c: Cap) {
      tag ==> c.tag && c.base <= base && limit <= c.limit && perms <= c.perms
    }
  }

  // What a capability register holds after a 64-bit write: no tag, no bounds of interest.
  function IntCap(v: u64): Cap {
    Cap(false, v, 0, TWO64, {})
  }

  const NULL_CAP := IntCap(0)

  // Capability-sized memory: a capability, or two 64-bit words.
  datatype Granule = CapGranule(c: Cap) | Words(lo: u64, hi: u64)

  // ldr c<n>
  function LoadCap(g: Granule): Cap {
    match g
    case CapGranule(c) => c
    case Words(lo, _) => IntCap(lo)
  }

  // ldr x<n> of the low word; the low word of a capability is its address.
  function LoadLow(g: Granule): u64 {
    match g
    case CapGranule(c) => c.addr
    case Words(lo, _) => lo
  }

  // str x<n> to the low word.  The high word is kept; what a capability's high word would read as
  // is not modelled and never read.
  function StoreLow(g: Granule, v: u64): Granule {
    match g
    case CapGranule(_) => Words(v, 0)
    case Words(_, hi) => Words(v, hi)
  }

  // The Capability builder of the compartment manager.  Bounds that do not lie within the root's,
  // or permissions beyond it, would cost the tag.
  function SetBounds(c: Cap, base: u64, length: nat): Cap {
    Cap(c.tag && c.base <= base && base + length <= c.limit, base, base, base + length, c.perms)
  }

  function SetPerms(c: Cap, perms: set<Perm>): Cap {
    c.(perms := c.perms * perms)
  }

  function SetAddress(c: Cap, addr: u64): Cap {
    c.(addr := addr)
  }
}
