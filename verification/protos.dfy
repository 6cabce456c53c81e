/**
 The wire types the coordinator reads, reduced to the fields it uses:
 a member's id, address and group, and a tablet's predicate and owner group.
 Go's fixed-width unsigned integers are subset types of `int`.
 */
module Protos {

  const Uint32Limit: int := 0x1_0000_0000

  type uint32 = x: int | 0 <= x < Uint32Limit
  type uint64 = x: int | 0 <= x < 0x1_0000_0000_0000_0000

  /** A data-serving node: its id, its replica group (0: none asked for) and its address. */
  datatype Membership = Membership(id: uint64, groupId: uint32, addr: string)

  /** A shard of the keyspace and the group serving it (0: nobody). */
  datatype Tablet = Tablet(groupId: uint32, pred: string)

  /** The question a member asks in ShouldServe. */
  datatype MembershipQuery = MembershipQuery(member: Membership, tablet: Tablet)

  /** Go's `x++` on a uint32: one more, wrapping to 0 past the largest value. */
  function Succ(x: uint32): (r: uint32)
    ensures x < Uint32Limit - 1 ==> r == x + 1
    ensures x == Uint32Limit - 1 ==> r == 0
  {
    (x + 1) % Uint32Limit
  }
}
