/** The files of all nodes: what is written once is never overwritten. */
module Disks {
  import opened Bytes

  /** What every node stores, by node and name. */
  type Disks = map<(string, string), seq<Byte>>

  /** A write of a name that is already there is accepted and changes nothing. */
  function StoreOnce(disks: Disks, node: string, name: string, data: seq<Byte>): Disks {
    if (node, name) in disks then disks else disks[(node, name) := data]
  }
}
