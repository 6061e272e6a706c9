/** One tag seen by an inventory (TagReport) and the parser that reads it
    out of an INVENTORY_ISO_CONTINUE payload: a signed RSSI word, the
    antenna and channel bytes, then the EPC, whose length is either given
    by byte 4 or taken from the PC word at bytes 4 and 5. */
module TagReports {

  import opened Wrappers
  import opened Bytes

  /** The smallest payload that carries the RSSI, antenna, channel and
      length fields. */
  const MinimumLength: nat := 5

  /** A parsed report. The RSSI is kept as the raw signed 16-bit reading,
      in tenths of a dBm. */
  datatype TagReport = TagReport(
    epc: string,
    uid: string,
    rawRssi: int,
    antenna: bv8,
    channel: bv8,
    rawPayload: seq<bv8>)

  // ---------------------------------------------------------------------
  // Upper-case hexadecimal, as Convert.ToHexString writes it
  // ---------------------------------------------------------------------

  const HexDigits: string := "0123456789ABCDEF"

  /** The digit for a nibble. */
  function Digit(n: bv8): (c: char)
    requires n < 16
    ensures c in HexDigits
  {
    HexDigits[n as int]
  }

  /** The nibble a digit stands for; lower-case and other characters are
      not digits of this alphabet. */
  function DigitValue(c: char): (n: Option<bv8>)
    ensures n.Some? ==> n.value < 16 && Digit(n.value) == c
    ensures n.None? ==> c !in HexDigits
  {
    if c == '0' then Some(0) else if c == '1' then Some(1)
    else if c == '2' then Some(2) else if c == '3' then Some(3)
    else if c == '4' then Some(4) else if c == '5' then Some(5)
    else if c == '6' then Some(6) else if c == '7' then Some(7)
    else if c == '8' then Some(8) else if c == '9' then Some(9)
    else if c == 'A' then Some(10) else if c == 'B' then Some(11)
    else if c == 'C' then Some(12) else if c == 'D' then Some(13)
    else if c == 'E' then Some(14) else if c == 'F' then Some(15)
    else None
  }

  /** Reading back the digit of a nibble gives the nibble. */
  lemma DigitRoundTrip(n: bv8)
    requires n < 16
    ensures DigitValue(Digit(n)) == Some(n)
  {
  }

  /** Two digits per byte, high nibble first, no separators. */
  function Hex(bytes: seq<bv8>): (s: string)
    ensures |s| == 2 * |bytes|
    ensures forall i :: 0 <= i < |s| ==> s[i] in HexDigits
  {
    if bytes == [] then ""
    else [Digit(bytes[0] >> 4), Digit(bytes[0] & 0xF)] + Hex(bytes[1..])
  }

  /** The inverse of Hex: pairs of digits back to bytes; an odd length or a
      character outside the alphabet is refused. */
  function FromHex(s: string): (r: Option<seq<bv8>>)
    ensures r.Some? ==> 2 * |r.value| == |s|
  {
    if s == [] then Some([])
    else if |s| == 1 then None
    else
      match (DigitValue(s[0]), DigitValue(s[1]), FromHex(s[2..]))
      case (Some(hi), Some(lo), Some(rest)) => Some([(hi << 4) | lo] + rest)
      case _ => None
  }

  /** A byte is its two nibbles put back together. */
  lemma NibblesJoin(b: bv8)
    ensures ((b >> 4) << 4) | (b & 0xF) == b
  {
  }

  /** Hex loses nothing: decoding the string it writes gives the bytes. */
  lemma {:induction false} FromHexHex(bytes: seq<bv8>)
    ensures FromHex(Hex(bytes)) == Some(bytes)
  {
    if bytes != [] {
      var b := bytes[0];
      var s := Hex(bytes);
      DigitRoundTrip(b >> 4);
      DigitRoundTrip(b & 0xF);
      NibblesJoin(b);
      assert s[2..] == Hex(bytes[1..]);
      FromHexHex(bytes[1..]);
      assert bytes == [b] + bytes[1..];
    }
  }

  // ---------------------------------------------------------------------
  // Locating the EPC
  // ---------------------------------------------------------------------

  /** Where the EPC lies: its offset in the payload and its length. */
  datatype EpcField = EpcField(offset: nat, length: nat)

  /** EPC length in bytes announced by a PC word: its five most significant
      bits count 16-bit words. */
  function PcEpcLength(pc: bv16): (n: nat)
    ensures n % 2 == 0 && n <= 62
  {
    ((pc >> 11) as int) * 2
  }

  /** The EPC length byte at offset 4 is used when it is non-zero and the
      payload holds that many bytes after it; otherwise, given a sixth
      byte, bytes 4 and 5 are read as the PC word and the EPC starts at
      offset 6. A zero PC length, an EPC running past the end, or a
      five-byte payload without a usable length byte yields nothing. */
  function LocateEpc(payload: seq<bv8>): (f: Option<EpcField>)
    requires |payload| >= MinimumLength
    ensures f.Some? ==> 0 < f.value.length && f.value.offset + f.value.length <= |payload|
  {
    var lengthByte := payload[4] as int;
    if lengthByte > 0 && |payload| >= 5 + lengthByte then
      Some(EpcField(5, lengthByte))
    else if |payload| >= 6 then
      var epcLength := PcEpcLength(BigEndian16(payload[4], payload[5]));
      if epcLength == 0 || |payload| < 6 + epcLength then None
      else Some(EpcField(6, epcLength))
    else
      None
  }

  /** TryParseInventoryPayload: a report when the payload has the five
      fixed bytes and an EPC can be located, nothing otherwise. */
  function TryParseInventoryPayload(payload: seq<bv8>): (r: Option<TagReport>)
    ensures r.Some? <==> |payload| >= MinimumLength && LocateEpc(payload).Some?
    ensures r.Some? ==>
      var f := LocateEpc(payload).value;
      && r.value.epc == Hex(payload[f.offset..f.offset + f.length])
      && r.value.uid == r.value.epc
      && r.value.rawRssi == SignedBigEndian16(payload[0], payload[1])
      && r.value.antenna == payload[2]
      && r.value.channel == payload[3]
      && r.value.rawPayload == payload
  {
    if |payload| < MinimumLength then None
    else
      match LocateEpc(payload)
      case None => None
      case Some(f) =>
        var epc := Hex(payload[f.offset..f.offset + f.length]);
        Some(TagReport(epc, epc, SignedBigEndian16(payload[0], payload[1]), payload[2], payload[3], payload))
  }

  // ---------------------------------------------------------------------
  // Properties of the parser
  // ---------------------------------------------------------------------

  /** Fewer than five bytes never make a report. */
  lemma ShortPayloadRejected(payload: seq<bv8>)
    requires |payload| < MinimumLength
    ensures TryParseInventoryPayload(payload) == None
  {
  }

  /** Exactly five bytes never make a report: a non-zero length byte
      overruns, and there is no PC word to fall back on. */
  lemma FiveBytesRejected(payload: seq<bv8>)
    requires |payload| == MinimumLength
    ensures TryParseInventoryPayload(payload) == None
  {
  }

  /** A usable length byte wins: the EPC is the bytes right after it. */
  lemma ExplicitLengthBranch(payload: seq<bv8>)
    requires |payload| >= MinimumLength
    requires payload[4] != 0 && |payload| >= 5 + payload[4] as int
    ensures TryParseInventoryPayload(payload).Some?
    ensures TryParseInventoryPayload(payload).value.epc == Hex(payload[5..5 + payload[4] as int])
  {
  }

  /** Without a usable length byte the PC word decides: a report exists
      exactly when it announces a non-zero length that fits after offset 6,
      and its EPC is those bytes. */
  lemma PcWordBranch(payload: seq<bv8>)
    requires |payload| >= 6
    requires payload[4] == 0 || |payload| < 5 + payload[4] as int
    ensures var n := PcEpcLength(BigEndian16(payload[4], payload[5]));
      && (TryParseInventoryPayload(payload).Some? <==> n > 0 && 6 + n <= |payload|)
      && (TryParseInventoryPayload(payload).Some? ==>
            TryParseInventoryPayload(payload).value.epc == Hex(payload[6..6 + n]))
  {
  }

  /** The EPC bytes can be read back out of a report's string. */
  lemma EpcRecoverable(payload: seq<bv8>)
    requires TryParseInventoryPayload(payload).Some?
    ensures var f := LocateEpc(payload).value;
      FromHex(TryParseInventoryPayload(payload).value.epc) == Some(payload[f.offset..f.offset + f.length])
  {
    var f := LocateEpc(payload).value;
    FromHexHex(payload[f.offset..f.offset + f.length]);
  }

  /** A report's EPC string has two upper-case digits per EPC byte, and
      at least one byte. */
  lemma EpcShape(payload: seq<bv8>)
    requires TryParseInventoryPayload(payload).Some?
    ensures var epc := TryParseInventoryPayload(payload).value.epc;
      && |epc| == 2 * LocateEpc(payload).value.length
      && |epc| >= 2
      && (forall i :: 0 <= i < |epc| ==> epc[i] in HexDigits)
  {
  }

  /** A report with an explicit length byte: RSSI word 0xFFCE (-50 tenths
      of a dBm), antenna 1, channel 3 and the four EPC bytes AA BB CC DD. */
  lemma ExplicitLengthSample()
    ensures var r := TryParseInventoryPayload([0xFF, 0xCE, 0x01, 0x03, 0x04, 0xAA, 0xBB, 0xCC, 0xDD]);
      && r.Some?
      && r.value.rawRssi == -50
      && r.value.antenna == 1 && r.value.channel == 3
      && r.value.epc == "AABBCCDD" && r.value.uid == "AABBCCDD"
  {
    var payload: seq<bv8> := [0xFF, 0xCE, 0x01, 0x03, 0x04, 0xAA, 0xBB, 0xCC, 0xDD];
    assert LocateEpc(payload) == Some(EpcField(5, 4));
    assert payload[5..9] == [0xAA, 0xBB, 0xCC, 0xDD];
    assert SignedBigEndian16(0xFF, 0xCE) == -50;
    SampleEpcHex();
  }

  /** The four EPC bytes of the sample above in upper-case hex. */
  lemma SampleEpcHex()
    ensures Hex([0xAA, 0xBB, 0xCC, 0xDD]) == "AABBCCDD"
  {
    assert Hex([0xDD]) == "DD";
    assert Hex([0xCC, 0xDD]) == "CCDD";
    assert Hex([0xBB, 0xCC, 0xDD]) == "BBCCDD";
  }

  /** PC word 0x3000 (six 16-bit words) followed by a twelve-byte EPC: the
      length byte 0x30 overruns, so the PC word gives the twelve bytes. */
  function PcSample(): (payload: seq<bv8>)
    ensures |payload| == 18
  {
    [0x00, 0x64, 0x02, 0x07, 0x30, 0x00] + seq(12, i => 0x11)
  }

  /** The eighteen-byte PC-word payload yields a report whose EPC is
      twelve bytes long; one byte fewer and there is no report. */
  lemma PcWordSample()
    ensures LocateEpc(PcSample()) == Some(EpcField(6, 12))
    ensures TryParseInventoryPayload(PcSample()).Some?
    ensures |TryParseInventoryPayload(PcSample()).value.epc| == 24
    ensures TryParseInventoryPayload(PcSample()[..17]) == None
  {
    var payload := PcSample();
    assert BigEndian16(payload[4], payload[5]) == 0x3000;
    assert PcEpcLength(0x3000) == 12;
    var short := payload[..17];
    assert short[4] == 0x30 && short[5] == 0x00;
  }
}
