/** The wire format of a reader frame and its decoder, as the reader client
    builds frames in SendAsync and reads them back in ReadFrameAsync:

      CF addr cmdHi cmdLo L [status payload...] crcHi crcLo

    where L counts the status byte and the payload together and the CRC
    covers every byte before it. */
module FrameCodec {

  import opened Bytes
  import opened Crc16
  import opened Frames
  import Commands

  /** The synchronisation byte that opens every frame. */
  const FrameHead: bv8 := 0xCF

  /** Largest payload a frame can carry: the length field is one byte. */
  const MaxPayload: nat := 255

  /** Whether the last two bytes of a frame are, big-endian, the CRC of all
      the bytes before them. */
  predicate CrcMatches(raw: seq<bv8>)
    requires |raw| >= 2
    ensures CrcMatches(raw) <==>
      HighByte(Crc(raw[..|raw| - 2])) == raw[|raw| - 2] && LowByte(Crc(raw[..|raw| - 2])) == raw[|raw| - 1]
  {
    SplitJoin16(Crc(raw[..|raw| - 2]));
    Crc(raw[..|raw| - 2]) == BigEndian16(raw[|raw| - 2], raw[|raw| - 1])
  }

  /** The outbound frame for a command: head, address, big-endian command,
      payload length, payload, then the big-endian CRC of everything before. */
  function Encode(address: bv8, command: bv16, payload: seq<bv8>): (frame: seq<bv8>)
    requires |payload| <= MaxPayload
    ensures |frame| == 7 + |payload|
    ensures frame[..5] == [FrameHead, address, HighByte(command), LowByte(command), ByteOf(|payload|)]
    ensures frame[5..5 + |payload|] == payload
    ensures CrcMatches(frame)
  {
    var header: seq<bv8> := [FrameHead, address, HighByte(command), LowByte(command), ByteOf(|payload|)];
    var body := header + payload;
    var crc: bv16 := Crc(body);
    var frame := body + [HighByte(crc), LowByte(crc)];
    assert frame[..5] == header;
    assert frame[5..5 + |payload|] == payload;
    SealMatches(body);
    frame
  }

  /** Appending the big-endian CRC of a byte sequence makes a sequence whose
      CRC check passes. */
  lemma SealMatches(body: seq<bv8>)
    ensures var crc: bv16 := Crc(body);
      CrcMatches(body + [HighByte(crc), LowByte(crc)])
  {
    var crc: bv16 := Crc(body);
    var sealed := body + [HighByte(crc), LowByte(crc)];
    assert sealed[..|sealed| - 2] == body;
    SplitJoin16(crc);
  }

  /** Number of payload bytes after the status byte, for a length field L:
      max(0, L - 1). */
  function PayloadLength(len: bv8): nat {
    if len == 0 then 0 else len as int - 1
  }

  /** A complete raw frame: head byte, and exactly 7 + L bytes. */
  predicate WellSized(raw: seq<bv8>) {
    |raw| >= 5 && |raw| == 7 + raw[4] as int
  }

  /** The fields of a raw frame, split as ReadFrameAsync splits them:
      status is the first byte after the header when L > 0 and 0 otherwise,
      the payload follows the status byte. */
  function Parse(raw: seq<bv8>): (f: Frame)
    requires WellSized(raw)
    ensures f.raw == raw && |f.raw| == 7 + raw[4] as int
    ensures f.address == raw[1]
    ensures HighByte(f.command) == raw[2] && LowByte(f.command) == raw[3]
    ensures |f.payload| == PayloadLength(raw[4])
    ensures raw[4] != 0 ==> [f.status] + f.payload == raw[5..|raw| - 2]
    ensures raw[4] == 0 ==> f.status == 0 && f.payload == []
  {
    var len := raw[4];
    Frame(raw[1], BigEndian16(raw[2], raw[3]),
          if len > 0 then raw[5] else 0x00,
          raw[6..6 + PayloadLength(len)],
          raw)
  }

  /** A parsed reply reports success when its status byte is 0x00, and a
      frame with length byte 0 carries no status byte at all, so it always
      reports success. */
  lemma ParsedSuccess(raw: seq<bv8>)
    requires WellSized(raw)
    ensures Parse(raw).IsSuccess() <==> raw[4] == 0 || raw[5] == 0x00
  {
  }

  /** Index of the first head byte in `s`, or |s| when there is none: the
      bytes the scanning loop throws away before a frame starts. */
  function SyncIndex(s: seq<bv8>): (k: nat)
    ensures k <= |s|
    ensures forall i :: 0 <= i < k ==> s[i] != FrameHead
    ensures k < |s| ==> s[k] == FrameHead
  {
    if s == [] then 0
    else if s[0] == FrameHead then 0
    else 1 + SyncIndex(s[1..])
  }

  /** What one read of a frame from the inbound stream yields. */
  datatype Decoded =
    | Valid(frame: Frame, consumed: nat)      // CRC matched: the frame is handed on
    | Invalid(raw: seq<bv8>, consumed: nat)   // CRC mismatch: the read returns null
    | Truncated                               // the stream ended inside the read

  /** The read that follows the head byte: the four header bytes, then
      L + 2 more, and the CRC check, on a stream that starts at the head. */
  function ReadAtHead(t: seq<bv8>): Decoded {
    if |t| < 5 then Truncated
    else
      var n := 7 + t[4] as int;
      if |t| < n then Truncated
      else
        var raw := t[..n];
        if CrcMatches(raw) then Valid(Parse(raw), n) else Invalid(raw, n)
  }

  /** `d` with `k` more bytes counted as consumed. */
  function Skipped(d: Decoded, k: nat): Decoded {
    match d
    case Valid(f, n) => Valid(f, k + n)
    case Invalid(raw, n) => Invalid(raw, k + n)
    case Truncated => Truncated
  }

  /** ReadFrameAsync over a finite stream: discard bytes up to the head byte,
      then read the frame that starts there. `consumed` counts every byte
      taken from the stream, the discarded ones included. */
  function Decode(s: seq<bv8>): Decoded {
    var k := SyncIndex(s);
    Skipped(ReadAtHead(s[k..]), k)
  }

  /** The raw bytes of a frame that was read in full, valid or not. */
  function RawOf(d: Decoded): seq<bv8>
    requires !d.Truncated?
  {
    if d.Valid? then d.frame.raw else d.raw
  }

  /** A frame that was read in full starts at the first head byte of the
      stream, every byte before it is something other than 0xCF and is
      discarded, and exactly 7 + L bytes are taken from the head on. A
      frame is handed on exactly when its CRC matches, with the fields split
      as Parse splits them. */
  lemma DecodeFraming(s: seq<bv8>)
    requires !Decode(s).Truncated?
    ensures var raw, n := RawOf(Decode(s)), Decode(s).consumed;
      && |raw| <= n <= |s|
      && s[n - |raw|..n] == raw
      && raw[0] == FrameHead
      && WellSized(raw)
      && (forall i :: 0 <= i < n - |raw| ==> s[i] != FrameHead)
      && (Decode(s).Valid? <==> CrcMatches(raw))
      && (Decode(s).Valid? ==> Decode(s).frame == Parse(raw))
  {
    var k := SyncIndex(s);
    var d := ReadAtHead(s[k..]);
    ReadAtHeadFraming(s[k..]);
    assert s[k..][..d.consumed] == s[k..k + d.consumed];
  }

  /** A read at the head takes the first 7 + L bytes as the raw frame. */
  lemma ReadAtHeadFraming(t: seq<bv8>)
    requires !ReadAtHead(t).Truncated?
    ensures var d := ReadAtHead(t);
      && d.consumed <= |t|
      && RawOf(d) == t[..d.consumed]
      && WellSized(RawOf(d))
      && (d.Valid? <==> CrcMatches(RawOf(d)))
      && (d.Valid? ==> d.frame == Parse(RawOf(d)))
  {
  }

  /** A read at the head runs out exactly when the stream ends inside the
      header or inside the 7 + L bytes; otherwise it takes 7 + L bytes. */
  lemma ReadAtHeadLength(t: seq<bv8>)
    ensures ReadAtHead(t).Truncated? <==> |t| < 5 || |t| < 7 + t[4] as int
    ensures !ReadAtHead(t).Truncated? ==> ReadAtHead(t).consumed == 7 + t[4] as int
  {
  }

  /** With no head byte in the stream nothing can be read. */
  lemma DecodeNeedsHead(s: seq<bv8>)
    requires forall i :: 0 <= i < |s| ==> s[i] != FrameHead
    ensures Decode(s).Truncated?
  {
  }

  /** Bytes that are not a head byte in front of the stream only shift
      where the frame is found. */
  lemma {:induction false} SyncIndexAfterGarbage(garbage: seq<bv8>, s: seq<bv8>)
    requires forall i :: 0 <= i < |garbage| ==> garbage[i] != FrameHead
    ensures SyncIndex(garbage + s) == |garbage| + SyncIndex(s)
  {
    if garbage != [] {
      assert (garbage + s)[1..] == garbage[1..] + s;
      SyncIndexAfterGarbage(garbage[1..], s);
    } else {
      assert garbage + s == s;
    }
  }

  /** Desynchronisation recovery: leading bytes other than 0xCF are skipped
      and the same frame is read, with the skipped bytes counted as
      consumed. */
  lemma DecodeAfterGarbage(garbage: seq<bv8>, s: seq<bv8>)
    requires forall i :: 0 <= i < |garbage| ==> garbage[i] != FrameHead
    ensures Decode(garbage + s) == Skipped(Decode(s), |garbage|)
  {
    SyncIndexAfterGarbage(garbage, s);
    var k := SyncIndex(s);
    DropPrefix(garbage, s, k);
    DecodeAt(garbage + s, s[k..], |garbage| + k);
    DecodeAt(s, s[k..], k);
    SkippedTwice(ReadAtHead(s[k..]), k, |garbage|);
  }

  /** Decode reads the frame at the first head byte. */
  lemma DecodeAt(s: seq<bv8>, t: seq<bv8>, j: nat)
    requires j == SyncIndex(s) && s[j..] == t
    ensures Decode(s) == Skipped(ReadAtHead(t), j)
  {
  }

  /** Dropping a prefix and then k more elements is dropping k elements of
      what follows the prefix. */
  lemma DropPrefix<T>(prefix: seq<T>, s: seq<T>, k: nat)
    requires k <= |s|
    ensures (prefix + s)[|prefix| + k..] == s[k..]
  {
  }

  /** Counting k, then j more consumed bytes is counting k + j. */
  lemma SkippedTwice(d: Decoded, k: nat, j: nat)
    ensures Skipped(Skipped(d, k), j) == Skipped(d, j + k)
  {
  }

  /** Round trip: reading back an encoded frame, with anything after it
      still in the stream, yields a valid frame with the same address and
      command. A non-empty payload comes back as its first byte (the status
      position) and the rest; an empty one as status 0 and no payload. */
  lemma DecodeEncode(address: bv8, command: bv16, payload: seq<bv8>, rest: seq<bv8>)
    requires |payload| <= MaxPayload
    ensures var frame := Encode(address, command, payload);
      Decode(frame + rest) ==
        Valid(Frame(address, command,
                    if payload == [] then 0x00 else payload[0],
                    if payload == [] then [] else payload[1..],
                    frame),
              |frame|)
  {
    var frame := Encode(address, command, payload);
    var s := frame + rest;
    assert s[0] == FrameHead;
    assert SyncIndex(s) == 0;
    assert s[0..] == s;
    ReadEncoded(address, command, payload, rest);
    ParseEncoded(address, command, payload);
  }

  /** The read at the head of an encoded frame takes exactly that frame. */
  lemma ReadEncoded(address: bv8, command: bv16, payload: seq<bv8>, rest: seq<bv8>)
    requires |payload| <= MaxPayload
    ensures var frame := Encode(address, command, payload);
      ReadAtHead(frame + rest) == Valid(Parse(frame), |frame|)
  {
    var frame := Encode(address, command, payload);
    var s := frame + rest;
    assert s[4] == frame[..5][4] == ByteOf(|payload|);
    assert s[..7 + |payload|] == frame;
    ReadAtHeadValid(s, frame);
  }

  /** A frame that is all there and whose CRC matches is read as valid. */
  lemma ReadAtHeadValid(t: seq<bv8>, raw: seq<bv8>)
    requires |t| >= 5 && |t| >= 7 + t[4] as int && raw == t[..7 + t[4] as int]
    requires CrcMatches(raw)
    ensures ReadAtHead(t) == Valid(Parse(raw), |raw|)
  {
  }

  /** The fields Parse splits out of an encoded frame. */
  lemma ParseEncoded(address: bv8, command: bv16, payload: seq<bv8>)
    requires |payload| <= MaxPayload
    ensures var frame := Encode(address, command, payload);
      Parse(frame) ==
        Frame(address, command,
              if payload == [] then 0x00 else payload[0],
              if payload == [] then [] else payload[1..],
              frame)
  {
    ParseLaidOut(Encode(address, command, payload), address, command, payload);
  }

  /** Parse on any byte sequence laid out as a frame for these fields. */
  lemma ParseLaidOut(raw: seq<bv8>, address: bv8, command: bv16, payload: seq<bv8>)
    requires |payload| <= MaxPayload && |raw| == 7 + |payload|
    requires raw[..5] == [FrameHead, address, HighByte(command), LowByte(command), ByteOf(|payload|)]
    requires raw[5..5 + |payload|] == payload
    ensures Parse(raw) ==
        Frame(address, command,
              if payload == [] then 0x00 else payload[0],
              if payload == [] then [] else payload[1..],
              raw)
  {
    var header := raw[..5];
    assert raw[1] == header[1] && raw[2] == header[2] && raw[3] == header[3] && raw[4] == header[4];
    var f := Parse(raw);
    SplitJoin16(command);
    SplitJoin16(f.command);
    assert f.command == command;
    if payload != [] {
      assert raw[5..|raw| - 2] == payload;
      assert [f.status] + f.payload == payload;
      assert f.status == payload[0] && f.payload == payload[1..];
    }
  }

  /** Error detection: XORing any non-zero pattern into any one byte of a
      frame whose CRC matches, the two CRC bytes included, makes the check
      fail. */
  lemma CorruptionDetected(raw: seq<bv8>, i: nat, error: bv8)
    requires |raw| >= 2 && CrcMatches(raw)
    requires i < |raw| && error != 0
    ensures !CrcMatches(raw[i := raw[i] ^ error])
  {
    if i < |raw| - 2 {
      BodyCorruptionDetected(raw, i, error);
    } else {
      TrailerCorruptionDetected(raw, i, error);
    }
  }

  /** A changed byte before the CRC changes the CRC that is computed. */
  lemma BodyCorruptionDetected(raw: seq<bv8>, i: nat, error: bv8)
    requires |raw| >= 2 && i < |raw| - 2 && error != 0
    ensures var bad := raw[i := raw[i] ^ error];
      Crc(bad[..|bad| - 2]) != Crc(raw[..|raw| - 2])
      && bad[|bad| - 2..] == raw[|raw| - 2..]
  {
    var body := raw[..|raw| - 2];
    var b := body[i];
    ReplaceInPrefix(raw, |raw| - 2, i, b ^ error);
    SplitAround(body, i, b ^ error);
    ErrorChangesCrc(body[..i], b, error, body[i + 1..]);
  }

  /** Replacing one element is splitting around it. */
  lemma SplitAround<T>(s: seq<T>, i: nat, x: T)
    requires i < |s|
    ensures s == s[..i] + [s[i]] + s[i + 1..]
    ensures s[i := x] == s[..i] + [x] + s[i + 1..]
  {
  }

  /** Replacing an element inside a prefix replaces it in the prefix and
      leaves the rest alone. */
  lemma ReplaceInPrefix<T>(s: seq<T>, m: nat, i: nat, x: T)
    requires i < m <= |s|
    ensures s[i := x][..m] == s[..m][i := x]
    ensures s[i := x][m..] == s[m..]
  {
  }

  /** A changed CRC byte changes the CRC that is received. */
  lemma TrailerCorruptionDetected(raw: seq<bv8>, i: nat, error: bv8)
    requires |raw| >= 2 && CrcMatches(raw)
    requires |raw| - 2 <= i < |raw| && error != 0
    ensures !CrcMatches(raw[i := raw[i] ^ error])
  {
    var bad := raw[i := raw[i] ^ error];
    var m := |raw| - 2;
    assert bad[..m] == raw[..m];
    var w, w' := BigEndian16(raw[m], raw[m + 1]), BigEndian16(bad[m], bad[m + 1]);
    assert HighByte(w) != HighByte(w') || LowByte(w) != LowByte(w');
  }

  /** A frame corrupted in transit anywhere after its head byte, except in
      the length byte (which changes how many bytes are read), is read in
      full and reported as a CRC mismatch, never handed on. */
  lemma DecodeCorrupted(raw: seq<bv8>, i: nat, error: bv8, rest: seq<bv8>)
    requires WellSized(raw) && raw[0] == FrameHead && CrcMatches(raw)
    requires 1 <= i < |raw| && i != 4 && error != 0
    ensures var bad := raw[i := raw[i] ^ error];
      Decode(bad + rest) == Invalid(bad, |raw|)
  {
    var bad := raw[i := raw[i] ^ error];
    var s := bad + rest;
    CorruptionDetected(raw, i, error);
    assert s[0] == FrameHead;
    assert SyncIndex(s) == 0;
    assert s[0..] == s;
    assert s[4] == raw[4];
    assert s[..|raw|] == bad;
  }

  /** Every command code fits in one byte, so the high byte of the command
      field of every frame sent for a command is 0x00. */
  lemma CommandHighByteZero(address: bv8, c: Commands.Command, payload: seq<bv8>)
    requires |payload| <= MaxPayload
    ensures Encode(address, Commands.Code(c), payload)[2] == 0x00
    ensures Encode(address, Commands.Code(c), payload)[3] as bv16 == Commands.Code(c)
  {
    var frame := Encode(address, Commands.Code(c), payload);
    assert frame[2] == frame[..5][2];
    assert frame[3] == frame[..5][3];
  }
}
