/** The IP table of server/ipswitch: which connection an address belongs to. */
module IpSwitch {
  import opened MachineInts

  type ConnId = nat
  type IPTable = map<nat, ConnId>

  function Unregistered(table: IPTable, addr: nat, c: ConnId): IPTable {
    if addr in table && table[addr] == c then table - {addr} else table
  }

  class IPSwitch {
    var ipTable: IPTable

    constructor ()
      ensures ipTable == map[]
    {
      ipTable := map[];
    }

    /** Take the address over; the connection that had it, if any, is to be closed. */
    method RegisterSocket(addr: nat, c: ConnId) returns (displaced: Option<ConnId>)
      modifies this
      ensures ipTable == old(ipTable)[addr := c]
      ensures displaced == if addr in old(ipTable) then Some(old(ipTable)[addr]) else None
    {
      displaced := if addr in ipTable then Some(ipTable[addr]) else None;
      ipTable := ipTable[addr := c];
    }

    /** Only the present owner gives an address up. */
    method UnregisterSocket(addr: nat, c: ConnId)
      modifies this
      ensures ipTable == Unregistered(old(ipTable), addr, c)
    {
      if addr !in ipTable || ipTable[addr] != c {
        return;
      }
      ipTable := ipTable - {addr};
    }
  }
}
