/** The INVENTORY_ISO_CONTINUE request (InventoryRequest): a mode byte and
    a 32-bit time or cycle count, sent as five bytes. */
module InventoryRequests {

  import opened Bytes

  const PayloadLength: nat := 5

  datatype InventoryRequest = InventoryRequest(mode: bv8, parameter: bv32)

  /** Mode 0 with parameter 0: inventory until told to stop. */
  const Continuous: InventoryRequest := InventoryRequest(0x00, 0)

  /** The five bytes of a request: the mode, then the parameter most
      significant byte first. */
  function Layout(r: InventoryRequest): (bytes: seq<bv8>)
    ensures |bytes| == PayloadLength
    ensures bytes[0] == r.mode
    ensures BigEndian32(bytes[1..]) == r.parameter
  {
    [r.mode] + BigEndianBytes32(r.parameter)
  }

  /** Reads a request back from its five bytes, the way the reader does. */
  function Parse(bytes: seq<bv8>): InventoryRequest
    requires |bytes| == PayloadLength
  {
    InventoryRequest(bytes[0], BigEndian32(bytes[1..]))
  }

  /** Reading a laid-out request gives it back. */
  lemma ParseLayout(r: InventoryRequest)
    ensures Parse(Layout(r)) == r
  {
  }

  /** Every five-byte string is the layout of exactly one request. */
  lemma LayoutParse(bytes: seq<bv8>)
    requires |bytes| == PayloadLength
    ensures Layout(Parse(bytes)) == bytes
  {
    BigEndian32RoundTrip(bytes[1..]);
    assert bytes == [bytes[0]] + bytes[1..];
  }

  /** The continuous request is five zero bytes on the wire. */
  lemma ContinuousLayout()
    ensures Layout(Continuous) == [0, 0, 0, 0, 0]
  {
  }

  /** ToPayload: a five-byte buffer, the mode written at offset 0 and the
      parameter written big-endian at offsets 1 to 4. */
  method ToPayload(r: InventoryRequest) returns (payload: seq<bv8>)
    ensures payload == Layout(r)
    ensures |payload| == PayloadLength && Parse(payload) == r
  {
    var b1, b2, b3, b4 := (r.parameter >> 24) as bv8, ((r.parameter >> 16) & 0xFF) as bv8,
                          ((r.parameter >> 8) & 0xFF) as bv8, (r.parameter & 0xFF) as bv8;
    var buffer := new bv8[PayloadLength];
    buffer[0] := r.mode;
    buffer[1] := b1;
    buffer[2] := b2;
    buffer[3] := b3;
    buffer[4] := b4;
    payload := buffer[..];
    LayoutBytes(r);
    assert payload == [r.mode, b1, b2, b3, b4];
    ParseLayout(r);
  }

  /** The five bytes of the layout, one by one. */
  lemma LayoutBytes(r: InventoryRequest)
    ensures Layout(r) == [r.mode, (r.parameter >> 24) as bv8, ((r.parameter >> 16) & 0xFF) as bv8,
                          ((r.parameter >> 8) & 0xFF) as bv8, (r.parameter & 0xFF) as bv8]
  {
  }
}
