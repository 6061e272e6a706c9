/** The 25-byte record exchanged by GET_ALL_PARAM and SET_ALL_PARAM
    (UhfReaderParameters): one byte per setting, except an eight-byte
    frequency table at offsets 7 to 14. */
module ReaderParameters {

  import opened Wrappers

  const PayloadLength: nat := 25
  const FrequencyTableLength: nat := 8

  datatype Parameters = Parameters(
    address: bv8,
    rfidProtocol: bv8,
    workMode: bv8,
    interface: bv8,
    baudRate: bv8,
    wiegandSetting: bv8,
    antennaMask: bv8,
    rfidFrequency: seq<bv8>,
    rfidPower: bv8,
    inquiryArea: bv8,
    qValue: bv8,
    session: bv8,
    accessAddress: bv8,
    accessDataLength: bv8,
    filterTimeSeconds: bv8,
    triggerTimeSeconds: bv8,
    buzzerTimeTicks: bv8,
    pollingInterval: bv8)

  /** Why a conversion was refused: FromPayload's ArgumentException and
      ToPayload's InvalidOperationException. */
  datatype ParametersError =
    | PayloadTooShort(length: nat)
    | BadFrequencyTable(length: nat)

  /** A record made with `new UhfReaderParameters()`: every byte zero and an
      eight-byte frequency table. */
  const Default: Parameters :=
    Parameters(0, 0, 0, 0, 0, 0, 0, [0, 0, 0, 0, 0, 0, 0, 0], 0, 0, 0, 0, 0, 0, 0, 0, 0, 0)

  /** FromPayload: read the fields at their fixed offsets; a payload shorter
      than 25 bytes is refused, bytes after the 25th are ignored. */
  function FromPayload(payload: seq<bv8>): (r: Result<Parameters, ParametersError>)
    ensures r.Success? <==> |payload| >= PayloadLength
    ensures r.Success? ==> |r.value.rfidFrequency| == FrequencyTableLength
  {
    if |payload| < PayloadLength then Failure(PayloadTooShort(|payload|))
    else
      Success(Parameters(
        payload[0], payload[1], payload[2], payload[3], payload[4], payload[5], payload[6],
        payload[7..15],
        payload[15], payload[16], payload[17], payload[18], payload[19], payload[20],
        payload[21], payload[22], payload[23], payload[24]))
  }

  /** The 25 bytes ToPayload writes for a record with an eight-byte
      frequency table. */
  function Layout(p: Parameters): (bytes: seq<bv8>)
    requires |p.rfidFrequency| == FrequencyTableLength
    ensures |bytes| == PayloadLength
  {
    Header(p) + p.rfidFrequency + Trailer(p)
  }

  /** The seven single-byte settings that precede the frequency table. */
  function Header(p: Parameters): (bytes: seq<bv8>)
    ensures |bytes| == 7 && bytes[0] == p.address && bytes[6] == p.antennaMask
  {
    [p.address, p.rfidProtocol, p.workMode, p.interface, p.baudRate, p.wiegandSetting, p.antennaMask]
  }

  /** The ten single-byte settings that follow the frequency table. */
  function Trailer(p: Parameters): (bytes: seq<bv8>)
    ensures |bytes| == 10 && bytes[0] == p.rfidPower && bytes[9] == p.pollingInterval
  {
    [p.rfidPower, p.inquiryArea, p.qValue, p.session, p.accessAddress, p.accessDataLength,
     p.filterTimeSeconds, p.triggerTimeSeconds, p.buzzerTimeTicks, p.pollingInterval]
  }

  /** Writes bytes 0 to 6 of the record and leaves the rest of the buffer alone. */
  method WriteHeader(payload: array<bv8>, p: Parameters)
    requires payload.Length == PayloadLength
    modifies payload
    ensures payload[..7] == Header(p)
    ensures payload[7..] == old(payload[7..])
  {
    payload[0] := p.address;
    payload[1] := p.rfidProtocol;
    payload[2] := p.workMode;
    payload[3] := p.interface;
    payload[4] := p.baudRate;
    payload[5] := p.wiegandSetting;
    payload[6] := p.antennaMask;
  }

  /** Array.Copy of the eight-byte table into offsets 7 to 14. */
  method CopyFrequencyTable(payload: array<bv8>, table: seq<bv8>)
    requires payload.Length == PayloadLength && |table| == FrequencyTableLength
    modifies payload
    ensures payload[..7] == old(payload[..7])
    ensures payload[7..15] == table
    ensures payload[15..] == old(payload[15..])
  {
    forall i | 0 <= i < FrequencyTableLength {
      payload[7 + i] := table[i];
    }
  }

  /** Writes bytes 15 to 24 of the record, one setting per byte in
      declaration order, and leaves the rest of the buffer alone. */
  method WriteTrailer(payload: array<bv8>, p: Parameters)
    requires payload.Length == PayloadLength
    modifies payload
    ensures payload[..15] == old(payload[..15])
    ensures payload[15..] == Trailer(p)
  {
    var trailer := Trailer(p);
    forall i | 0 <= i < 10 {
      payload[15 + i] := trailer[i];
    }
  }

  /** ToPayload: allocate 25 bytes and write each field at its offset,
      copying the frequency table in; a table that is not eight bytes long
      is refused once the first seven bytes are written. */
  method ToPayload(p: Parameters) returns (r: Result<seq<bv8>, ParametersError>)
    ensures r.Success? <==> |p.rfidFrequency| == FrequencyTableLength
    ensures r.Failure? ==> r.error == BadFrequencyTable(|p.rfidFrequency|)
    ensures r.Success? ==> |r.value| == PayloadLength && FromPayload(r.value) == Success(p)
    ensures r.Success? ==> r.value == Layout(p)
  {
    var payload := new bv8[PayloadLength];
    WriteHeader(payload, p);
    if |p.rfidFrequency| != FrequencyTableLength {
      return Failure(BadFrequencyTable(|p.rfidFrequency|));
    }
    CopyFrequencyTable(payload, p.rfidFrequency);
    WriteTrailer(payload, p);
    assert payload[..] == payload[..7] + payload[7..15] + payload[15..];
    FromLayout(p);
    return Success(payload[..]);
  }

  /** Decoding what ToPayload wrote gives the record back. */
  lemma FromLayout(p: Parameters)
    requires |p.rfidFrequency| == FrequencyTableLength
    ensures FromPayload(Layout(p)) == Success(p)
  {
    var bytes := Layout(p);
    assert bytes[7..15] == p.rfidFrequency;
  }

  /** Encoding a decoded record reproduces the first 25 bytes of the
      payload it came from. */
  lemma LayoutFrom(payload: seq<bv8>)
    requires |payload| >= PayloadLength
    ensures Layout(FromPayload(payload).value) == payload[..PayloadLength]
  {
    var p := FromPayload(payload).value;
    assert Layout(p) == payload[..PayloadLength];
  }

  /** Overwriting byte 15 of an encoded record and decoding it again
      changes the transmit power and nothing else, as the power setting of
      the test bench does before SET_ALL_PARAM. */
  lemma PowerByteOnlyChangesPower(p: Parameters, power: bv8)
    requires |p.rfidFrequency| == FrequencyTableLength
    ensures FromPayload(Layout(p)[15 := power]) == Success(p.(rfidPower := power))
  {
    var bytes := Layout(p)[15 := power];
    assert bytes[7..15] == p.rfidFrequency;
  }

  /** A default-constructed record encodes to 25 zero bytes. */
  lemma DefaultLayout()
    ensures Layout(Default) == seq(PayloadLength, _ => 0)
  {
  }
}
