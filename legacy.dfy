/** The three frames the older driver (ChafonCF69xRfidAdapter) sends as
    fixed byte arrays, compared with what the frame codec builds. The
    register values in the proofs are the CRC after each byte. */
module LegacyFrames {

  import opened Bytes
  import opened Crc16
  import opened Commands
  import opened FrameCodec
  import ReaderSession

  /** GET_PARAMS_COMMAND: despite its name, command 0x70 (GET_DEVICE_INFO)
      to the broadcast address, with no payload. */
  const GetParamsCommand: seq<bv8> := [0xCF, 0xFF, 0x00, 0x70, 0x00, 0x24, 0x15]
  /** CLOSE_RELAY_COMMAND: command 0x77 with payload 02 00. */
  const CloseRelayCommand: seq<bv8> := [0xCF, 0xFF, 0x00, 0x77, 0x02, 0x02, 0x00, 0x5D, 0x26]
  /** OPEN_RELAY_COMMAND: command 0x77 with payload 01 00. */
  const OpenRelayCommand: seq<bv8> := [0xCF, 0xFF, 0x00, 0x77, 0x02, 0x01, 0x00, 0x77, 0x4E]

  /** The broadcast reader address both drivers use. */
  const Broadcast: bv8 := 0xFF

  /** Sealing a five-byte header plus payload whose CRC is known gives that
      body followed by the CRC, most significant byte first. */
  lemma EncodeIs(command: Command, payload: seq<bv8>, crc: bv16)
    requires |payload| <= 2
    requires Crc([FrameHead, Broadcast, 0x00, Code(command) as bv8, ByteOf(|payload|)] + payload) == crc
    ensures Encode(Broadcast, Code(command), payload)
         == [FrameHead, Broadcast, 0x00, Code(command) as bv8, ByteOf(|payload|)] + payload + [HighByte(crc), LowByte(crc)]
  {
    assert HighByte(Code(command)) == 0x00;
    assert LowByte(Code(command)) == Code(command) as bv8;
  }

  /** The legacy GET_PARAMS bytes are exactly the codec's GET_DEVICE_INFO
      request to the broadcast address, and they pass the CRC check. */
  lemma GetParamsFrame()
    ensures Encode(Broadcast, Code(GetDeviceInfo), []) == GetParamsCommand
    ensures CrcMatches(GetParamsCommand)
  {
    var s1: seq<bv8> := [0xCF];
    CrcSnoc([], 0xCF);
    assert Crc(s1) == 0x317C;
    CrcSnoc(s1, 0xFF);
    assert Crc(s1 + [0xFF]) == 0xB6A2;
    CrcSnoc(s1 + [0xFF], 0x00);
    assert Crc(s1 + [0xFF] + [0x00]) == 0x86AE;
    CrcSnoc(s1 + [0xFF] + [0x00], 0x70);
    assert Crc(s1 + [0xFF] + [0x00] + [0x70]) == 0x3F75;
    CrcSnoc(s1 + [0xFF] + [0x00] + [0x70], 0x00);
    assert Crc(s1 + [0xFF] + [0x00] + [0x70] + [0x00]) == 0x2415;
    assert s1 + [0xFF] + [0x00] + [0x70] + [0x00] == [0xCF, 0xFF, 0x00, 0x70, 0x00];
    assert [FrameHead, Broadcast, 0x00, Code(GetDeviceInfo) as bv8, ByteOf(0)] + [] == [0xCF, 0xFF, 0x00, 0x70, 0x00];
    EncodeIs(GetDeviceInfo, [], 0x2415);
  }

  /** The first six bytes of both relay frames share their register value. */
  lemma RelayPrefixCrc()
    ensures Crc([0xCF, 0xFF, 0x00, 0x77, 0x02]) == 0x4A0F
  {
    var s1: seq<bv8> := [0xCF];
    CrcSnoc([], 0xCF);
    assert Crc(s1) == 0x317C;
    CrcSnoc(s1, 0xFF);
    assert Crc(s1 + [0xFF]) == 0xB6A2;
    CrcSnoc(s1 + [0xFF], 0x00);
    assert Crc(s1 + [0xFF] + [0x00]) == 0x86AE;
    CrcSnoc(s1 + [0xFF] + [0x00], 0x77);
    assert Crc(s1 + [0xFF] + [0x00] + [0x77]) == 0x4BCA;
    CrcSnoc(s1 + [0xFF] + [0x00] + [0x77], 0x02);
    assert Crc(s1 + [0xFF] + [0x00] + [0x77] + [0x02]) == 0x4A0F;
    assert s1 + [0xFF] + [0x00] + [0x77] + [0x02] == [0xCF, 0xFF, 0x00, 0x77, 0x02];
  }

  /** PulseRelay(close: true) to the broadcast address puts the legacy
      CLOSE_RELAY bytes on the wire. */
  lemma CloseRelayFrame()
    ensures Encode(Broadcast, Code(RelayControl), ReaderSession.RelayPayload(true)) == CloseRelayCommand
    ensures CrcMatches(CloseRelayCommand)
  {
    var prefix: seq<bv8> := [0xCF, 0xFF, 0x00, 0x77, 0x02];
    RelayPrefixCrc();
    CrcSnoc(prefix, 0x02);
    assert Crc(prefix + [0x02]) == 0xDBAF;
    CrcSnoc(prefix + [0x02], 0x00);
    assert Crc(prefix + [0x02] + [0x00]) == 0x5D26;
    assert prefix + [0x02] + [0x00] == [0xCF, 0xFF, 0x00, 0x77, 0x02] + [0x02, 0x00];
    EncodeIs(RelayControl, [0x02, 0x00], 0x5D26);
  }

  /** The legacy OPEN_RELAY bytes are a well-formed RELAY frame with payload
      01 00, which is not the payload PulseRelay(close: false) sends
      (02 01): the two drivers open the relay with different requests. */
  lemma OpenRelayFrame()
    ensures Encode(Broadcast, Code(RelayControl), [0x01, 0x00]) == OpenRelayCommand
    ensures CrcMatches(OpenRelayCommand)
    ensures Encode(Broadcast, Code(RelayControl), ReaderSession.RelayPayload(false)) != OpenRelayCommand
  {
    var prefix: seq<bv8> := [0xCF, 0xFF, 0x00, 0x77, 0x02];
    RelayPrefixCrc();
    CrcSnoc(prefix, 0x01);
    assert Crc(prefix + [0x01]) == 0xE934;
    CrcSnoc(prefix + [0x01], 0x00);
    assert Crc(prefix + [0x01] + [0x00]) == 0x774E;
    assert prefix + [0x01] + [0x00] == [0xCF, 0xFF, 0x00, 0x77, 0x02] + [0x01, 0x00];
    EncodeIs(RelayControl, [0x01, 0x00], 0x774E);
    var newOpen := Encode(Broadcast, Code(RelayControl), ReaderSession.RelayPayload(false));
    assert newOpen[5] == 0x02 && OpenRelayCommand[5] == 0x01;
  }
}
