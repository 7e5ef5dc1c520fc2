/** The wire messages of protocol.hpp: a union of three packed structs, told apart by its first byte. */
module Protocol {
  import opened Bits

  /** Any first byte that is not one of the three message types; zero marks an unused journal record. */
  type OtherType = c: char | c != 'A' && c != 'X' && c != 'E' witness '\0'

  datatype Message =
    | Add(seqNo: Word, timestampNs: nat, orderId: Word, side: char, price: int, quantity: int)
    | Cancel(seqNo: Word, timestampNs: nat, orderId: Word, quantity: int)
    | Execute(seqNo: Word, timestampNs: nat, orderId: Word, execQuantity: int, matchPrice: int)
    | Other(tag: OtherType, seqNo: Word)
  {
    /** The byte at offset zero, shared by every member of the union. */
    function MsgType(): char {
      match this
      case Add(_, _, _, _, _, _) => 'A'
      case Cancel(_, _, _, _) => 'X'
      case Execute(_, _, _, _, _) => 'E'
      case Other(tag, _) => tag
    }

    /** `WireMessage::isValid`. */
    predicate IsValid() {
      match this
      case Add(_, _, _, side, price, quantity) => (side == 'B' || side == 'S') && price > 0 && quantity > 0
      case Cancel(_, _, _, quantity) => quantity >= 0
      case Execute(_, _, _, execQuantity, matchPrice) => execQuantity > 0 && matchPrice > 0
      case Other(_, _) => false
    }
  }

  /** An all-zero record, as `ftruncate` leaves it. */
  const BLANK: Message := Other('\0', 0)

  /** Sequence numbers that a 64-bit expectation can step past without wrapping to zero. */
  ghost predicate BelowWrap(msgs: seq<Message>) {
    forall m :: m in msgs ==> m.seqNo < WORD - 1
  }
}
