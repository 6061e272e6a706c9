/** A frame as the receive path hands it on (UhfPrimeFrame). */
module Frames {


  /** The parsed fields of a frame: the status byte is kept apart from the
      payload, and `raw` is the full frame from the 0xCF head to the CRC. */
  datatype Frame = Frame(address: bv8, command: bv16, status: bv8, payload: seq<bv8>, raw: seq<bv8>)
  {
    /** A reply reports success exactly when its status byte is 0x00. */
    predicate IsSuccess() {
      status == 0x00
    }
  }
}
