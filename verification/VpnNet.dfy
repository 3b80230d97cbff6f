/** The subnet of shared/vpn_net.go: addresses as numbers, counted in Go's uint64. */
module VpnNet {
  import opened MachineInts

  const TWO_TO_64: int := 0x1_0000_0000_0000_0000

  /** A subnet of `count` addresses from `base` on; `count` is a power of two up to 2^63, the
      most that the library's AddressCount returns. */
  datatype Net = Net(base: nat, count: nat) {
    predicate Valid() {
      1 <= count <= 0x8000_0000_0000_0000
    }

    /** Three addresses are set aside, in wrapping arithmetic. */
    function GetClientSlots(): nat {
      (count - 3) % TWO_TO_64
    }

    function MaxSlot(): nat {
      (GetClientSlots() + 1) % TWO_TO_64
    }

    /** The library's Host function: an error beyond the last address. */
    function GetIPAt(idx: nat): Option<nat> {
      if idx < count then Some(base + idx) else None
    }

    function GetServerIP(): Option<nat> {
      GetIPAt(1)
    }

    /** The address of the client in a slot. */
    function ClientIP(slot: nat): Option<nat> {
      GetIPAt(slot + 1)
    }
  }

  /** In a subnet of at least four addresses, exactly the slots up to MaxSlot have an address:
      inside the subnet, not its base, not the server's, and the last (broadcast) address
      only in the highest slot. There is one slot more than GetClientSlots counts. */
  lemma SlotAddresses(net: Net, slot: nat)
    requires net.Valid() && net.count >= 4 && slot >= 1
    ensures net.MaxSlot() == net.GetClientSlots() + 1 == net.count - 2
    ensures net.ClientIP(slot).Some? <==> slot <= net.MaxSlot()
    ensures slot <= net.MaxSlot() ==>
      var ip := net.ClientIP(slot).value;
      && net.base < ip < net.base + net.count
      && Some(ip) != net.GetServerIP()
      && (ip == net.base + net.count - 1 <==> slot == net.MaxSlot())
  {
  }

  lemma SlotAddressesDiffer(net: Net, s: nat, t: nat)
    requires net.ClientIP(s).Some? && net.ClientIP(s) == net.ClientIP(t)
    ensures s == t
  {
  }

  /** Smaller subnets serve nobody: no slot has an address. A /32 wraps to 2^64 - 1 slots. */
  lemma TinySubnetsServeNobody(net: Net, slot: nat)
    requires net.Valid() && slot >= 1
    ensures net.count <= 2 ==> net.ClientIP(slot).None?
    ensures net.count == 1 ==> net.MaxSlot() == TWO_TO_64 - 1
    ensures net.count == 2 ==> net.MaxSlot() == 0
  {
  }
}
