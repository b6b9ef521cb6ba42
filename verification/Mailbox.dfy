/** Message attributes as the mailbox table holds them (src/storage.h). */
module Mailbox {

  const SEEN: bv32 := 1
  const ANSWERED: bv32 := 2
  const FLAGGED: bv32 := 4
  const DELETED: bv32 := 8
  const DRAFT: bv32 := 16
  const RECENT: bv32 := 32

  datatype Message = Message(mid: int, status: bv32)

  predicate Has(status: bv32, mask: bv32) { status & mask == mask }

  predicate DistinctMids(table: seq<Message>) {
    forall i, j | 0 <= i < j < |table| :: table[i].mid != table[j].mid
  }
}
