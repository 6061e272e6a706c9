/** The reader client (UhfPrimeReaderClient) as a sequential object: the
    connection it holds, the frames it writes, the bytes still to be read,
    the waiter registry that correlates replies with requests, and the
    trace and notification events it raises.

    The TCP socket is replaced by two sequences: `inbound`, the bytes the
    reader will still send, and `outbound`, the frames written so far. The
    receive task becomes a method that runs one read and its dispatch at a
    time. */
module ReaderSession {

  import opened Wrappers
  import opened Bytes
  import Crc16
  import opened Frames
  import opened Commands
  import opened FrameCodec
  import opened WaiterQueues
  import ReaderParameters
  import InventoryRequests
  import TagReports

  /** The note a FrameTraced event carries. */
  datatype TraceNote = Tx | Rx | RxCrcMismatch

  /** A FrameTraced event (FrameTraceEventArgs). */
  datatype TraceEvent = TraceEvent(
    raw: seq<bv8>,
    isValid: bool,
    address: bv8,
    command: bv16,
    status: bv8,
    payloadLength: nat,
    note: TraceNote)

  /** FrameReceived and TagReported events, in the order they are raised. */
  datatype Notification =
    | FrameReceived(frame: Frame)
    | TagReported(report: TagReports.TagReport)

  /** Why SendAsync refuses to write: InvalidOperationException without a
      stream, ArgumentException for an oversized payload. */
  datatype SendError = NotConnected | PayloadTooLong(length: nat)

  /** What one ReadFrameAsync yields: no stream at all, the stream ending
      (the IOException that ends the receive loop), a frame dropped for its
      CRC, or a frame handed on. */
  datatype ReadOutcome = NoStream | StreamEnded | Dropped | Received(frame: Frame)

  /** The trace of a received frame, with the fields split as ReadFrameAsync
      splits them whether or not the CRC matched. */
  function RxTrace(raw: seq<bv8>, isValid: bool): (t: TraceEvent)
    requires WellSized(raw)
    ensures t.raw == raw && t.isValid == isValid
    ensures t.note == (if isValid then Rx else RxCrcMismatch)
    ensures t.address == raw[1] && t.command == BigEndian16(raw[2], raw[3])
    ensures t.status == (if raw[4] != 0 then raw[5] else 0x00)
    ensures t.payloadLength == PayloadLength(raw[4])
  {
    var f := Parse(raw);
    TraceEvent(raw, isValid, f.address, f.command, f.status, |f.payload|, if isValid then Rx else RxCrcMismatch)
  }

  /** The trace of a sent frame: always valid, status 0. */
  function TxTrace(address: bv8, command: bv16, payload: seq<bv8>): (t: TraceEvent)
    requires |payload| <= MaxPayload
    ensures t.raw == Encode(address, command, payload) && t.isValid && t.note == Tx
    ensures t.address == address && t.command == command
    ensures t.status == 0 && t.payloadLength == |payload|
  {
    TraceEvent(Encode(address, command, payload), true, address, command, 0x00, |payload|, Tx)
  }

  /** The events an unsolicited frame raises: a TagReported event for an
      INVENTORY_ISO_CONTINUE frame with status 0 whose payload parses, and
      nothing for any other frame. */
  function UnsolicitedEvents(frame: Frame): (events: seq<Notification>)
    ensures |events| <= 1
    ensures events != [] <==>
      frame.command == Code(InventoryIsoContinue) && frame.status == 0x00
      && TagReports.TryParseInventoryPayload(frame.payload).Some?
    ensures events != [] ==> events[0] == TagReported(TagReports.TryParseInventoryPayload(frame.payload).value)
  {
    if frame.command == Code(InventoryIsoContinue) && frame.status == 0x00 then
      match TagReports.TryParseInventoryPayload(frame.payload)
      case Some(report) => [TagReported(report)]
      case None => []
    else []
  }

  /** Only the inventory stream raises tag reports: a frame for any other
      command, or with a non-zero status, raises none. */
  lemma OnlyInventoryReportsTags(frame: Frame)
    requires frame.command != Code(InventoryIsoContinue) || frame.status != 0x00
    ensures UnsolicitedEvents(frame) == []
  {
  }

  /** The frame SendAsync builds in its buffer: head, address, big-endian
      command, payload length, the payload copied in, then the big-endian
      CRC of the first 5 + |payload| bytes. */
  method BuildFrame(address: bv8, command: bv16, payload: seq<bv8>) returns (frame: seq<bv8>)
    requires |payload| <= MaxPayload
    ensures frame == Encode(address, command, payload)
  {
    var n := |payload|;
    var buffer := new bv8[5 + n + 2];
    WriteBody(buffer, address, command, payload);
    var crc := Crc16.Compute(buffer[..5 + n]);
    WriteCrc(buffer, crc);
    frame := buffer[..];
  }

  /** Everything the CRC covers: the header, then the payload. */
  method WriteBody(buffer: array<bv8>, address: bv8, command: bv16, payload: seq<bv8>)
    requires |payload| <= MaxPayload && buffer.Length == 7 + |payload|
    modifies buffer
    ensures buffer[..5 + |payload|] ==
      [FrameHead, address, HighByte(command), LowByte(command), ByteOf(|payload|)] + payload
  {
    WriteHeader(buffer, address, command, |payload|);
    CopyPayload(buffer, payload);
    assert buffer[..5 + |payload|] == buffer[..5] + buffer[5..5 + |payload|];
  }

  /** The five header bytes: head, address, big-endian command, length;
      the rest of the buffer is left alone. */
  method WriteHeader(buffer: array<bv8>, address: bv8, command: bv16, n: nat)
    requires n <= MaxPayload && buffer.Length == 7 + n
    modifies buffer
    ensures buffer[..5] == [FrameHead, address, HighByte(command), LowByte(command), ByteOf(n)]
    ensures buffer[5..] == old(buffer[5..])
  {
    buffer[0] := FrameHead;
    buffer[1] := address;
    buffer[2] := HighByte(command);
    buffer[3] := LowByte(command);
    buffer[4] := ByteOf(n);
  }

  /** The payload copied in after the header; the header and the two CRC
      bytes are left alone. */
  method CopyPayload(buffer: array<bv8>, payload: seq<bv8>)
    requires buffer.Length == 7 + |payload|
    modifies buffer
    ensures buffer[..5] == old(buffer[..5])
    ensures buffer[5..5 + |payload|] == payload
    ensures buffer[5 + |payload|..] == old(buffer[5 + |payload|..])
  {
    forall i | 0 <= i < |payload| {
      buffer[5 + i] := payload[i];
    }
  }

  /** The big-endian CRC written into the last two bytes; the bytes before
      them are left alone. */
  method WriteCrc(buffer: array<bv8>, crc: bv16)
    requires buffer.Length >= 2
    modifies buffer
    ensures buffer[..] == old(buffer[..buffer.Length - 2]) + [HighByte(crc), LowByte(crc)]
  {
    buffer[buffer.Length - 2] := HighByte(crc);
    buffer[buffer.Length - 1] := LowByte(crc);
    assert buffer[..] == buffer[..buffer.Length - 2] + buffer[buffer.Length - 2..];
  }

  /** The payload of a relay pulse: 0x02, then 0x00 to close the relay or
      0x01 to open it. */
  function RelayPayload(close: bool): (payload: seq<bv8>)
    ensures |payload| == 2 && payload[0] == 0x02
    ensures payload[1] == (if close then 0x00 else 0x01)
  {
    [0x02, if close then 0x00 else 0x01]
  }

  /** The bytes left on the stream after one ReadFrameAsync: those after
      the frame it read, or none when the stream ended inside the read. */
  function Remaining(s: seq<bv8>): (r: seq<bv8>)
    ensures Decode(s).Truncated? ==> r == []
    ensures !Decode(s).Truncated? ==> |r| + 7 <= |s| && r == s[Decode(s).consumed..]
  {
    var d := Decode(s);
    if d.Truncated? then []
    else
      DecodeFraming(s);
      s[d.consumed..]
  }

  /** The trace ReadFrameAsync raises for a frame it read in full. */
  function ReadTrace(s: seq<bv8>): (t: TraceEvent)
    requires !Decode(s).Truncated?
    ensures t.raw == RawOf(Decode(s)) && t.raw[0] == FrameHead
    ensures t.isValid == Decode(s).Valid?
  {
    DecodeFraming(s);
    RxTrace(RawOf(Decode(s)), Decode(s).Valid?)
  }

  /** The do-while loop of ReadFrameAsync that reads single bytes until
      the head byte: the index of the first head byte, or the length of
      the stream when there is none. */
  method FindHead(s: seq<bv8>) returns (i: nat)
    ensures i == SyncIndex(s)
  {
    i := 0;
    while i < |s| && s[i] != FrameHead
      invariant 0 <= i <= |s|
      invariant forall j :: 0 <= j < i ==> s[j] != FrameHead
    {
      i := i + 1;
    }
  }

  /** The CRC check of ReadFrameAsync: Compute over all but the last two
      bytes, compared with those two read big-endian. */
  method CheckCrc(raw: seq<bv8>) returns (isValid: bool)
    requires |raw| >= 2
    ensures isValid == CrcMatches(raw)
  {
    var crcCalculated := Crc16.Compute(raw[..|raw| - 2]);
    var crcReceived := BigEndian16(raw[|raw| - 2], raw[|raw| - 1]);
    isValid := crcCalculated == crcReceived;
  }

  /** A frame read in full at offset i of the stream, where the first head
      byte is, is what Decode reads, and the stream goes on after it. */
  lemma ReadStep(s: seq<bv8>, i: nat, raw: seq<bv8>)
    requires i == SyncIndex(s) && i <= |s|
    requires |s[i..]| >= 5 && |raw| == 7 + s[i..][4] as int && |s[i..]| >= |raw|
    requires raw == s[i..][..|raw|]
    ensures !Decode(s).Truncated?
    ensures RawOf(Decode(s)) == raw && Decode(s).consumed == i + |raw|
    ensures Decode(s).Valid? <==> CrcMatches(raw)
    ensures Decode(s).Valid? ==> Decode(s).frame == Parse(raw)
    ensures Remaining(s) == s[i + |raw|..]
    ensures ReadTrace(s) == RxTrace(raw, CrcMatches(raw))
  {
    ReadAtHeadFraming(s[i..]);
    assert Decode(s) == Skipped(ReadAtHead(s[i..]), i);
  }

  /** The stream ending before the header or the rest of the frame is in
      is what Decode calls truncated, and consumes the stream. */
  lemma TruncatedStep(s: seq<bv8>, i: nat)
    requires i == SyncIndex(s) && i <= |s|
    requires |s[i..]| < 5 || |s[i..]| < 7 + s[i..][4] as int
    ensures Decode(s).Truncated? && Remaining(s) == []
  {
  }

  /** What awaiting a reply yields, once a waiter is settled. */
  datatype OperationError =
    | SendFailed(send: SendError)
    | InvalidParameters(parameters: ReaderParameters.ParametersError)
    | ErrorStatus(status: bv8)
    | Canceled

  /** GetAllParametersAsync once its waiter is settled: the reply payload
      read as a parameter record (the status byte is not looked at), or the
      cancellation; nothing yet while the waiter is pending. */
  function ParametersReply(st: WaiterState): (r: Option<Result<ReaderParameters.Parameters, OperationError>>)
    ensures r.None? <==> st.Pending?
    ensures st.Cancelled? ==> r == Some(Failure(Canceled))
    ensures st.Completed? ==> (r.value.Success? <==> |st.frame.payload| >= ReaderParameters.PayloadLength)
    ensures st.Completed? && r.value.Failure? ==>
      r.value.error == InvalidParameters(ReaderParameters.PayloadTooShort(|st.frame.payload|))
    ensures st.Completed? && r.value.Success? ==>
      && |r.value.value.rfidFrequency| == ReaderParameters.FrequencyTableLength
      && ReaderParameters.Layout(r.value.value) == st.frame.payload[..ReaderParameters.PayloadLength]
  {
    match st
    case Pending => None
    case Cancelled => Some(Failure(Canceled))
    case Completed(frame) =>
      match ReaderParameters.FromPayload(frame.payload)
      case Success(p) =>
        ReaderParameters.LayoutFrom(frame.payload);
        Some(Success(p))
      case Failure(e) => Some(Failure(InvalidParameters(e)))
  }

  /** SetAllParametersAsync, StopInventoryAsync and PulseRelayAsync once
      their waiter is settled: success exactly for a reply with status 0,
      the status otherwise, or the cancellation. */
  function StatusReply(st: WaiterState): (r: Option<Result<(), OperationError>>)
    ensures r.None? <==> st.Pending?
    ensures st.Cancelled? ==> r == Some(Failure(Canceled))
    ensures st.Completed? ==> (r.value.Success? <==> st.frame.IsSuccess())
    ensures st.Completed? && !st.frame.IsSuccess() ==> r.value == Failure(ErrorStatus(st.frame.status))
  {
    match st
    case Pending => None
    case Cancelled => Some(Failure(Canceled))
    case Completed(frame) =>
      if !frame.IsSuccess() then Some(Failure(ErrorStatus(frame.status))) else Some(Success(()))
  }

  class ReaderClient {
    /** The reader address frames are sent to; 0xFF until a connect. */
    var address: bv8
    /** Whether a stream is open. */
    var connected: bool
    /** The bytes the reader will still send on the stream. */
    var inbound: seq<bv8>
    /** Every frame written to the stream, oldest first. */
    var outbound: seq<seq<bv8>>
    /** The waiter dictionary: command id to FIFO queue of waiters. */
    var waiters: Registry
    /** Every waiter handed out, with its outcome so far. */
    var states: map<WaiterId, WaiterState>
    /** The id the next waiter gets. */
    var nextId: WaiterId
    /** Every FrameTraced event raised, oldest first. */
    var traces: seq<TraceEvent>
    /** Every FrameReceived and TagReported event raised, oldest first. */
    var notifications: seq<Notification>

    /** The registry invariant: no command id with an empty queue, every
        queued waiter known and queued at most once per queue, and every
        waiter numbered below the next id. */
    ghost predicate Valid()
      reads this
    {
      RegistryValid(waiters, states, nextId)
    }

    /** A client before any connect: address 0xFF, no stream, no waiters. */
    constructor()
      ensures Valid()
      ensures address == 0xFF && !connected && inbound == [] && outbound == []
      ensures waiters == map[] && states == map[] && nextId == 0
      ensures traces == [] && notifications == []
    {
      address := 0xFF;
      connected := false;
      inbound := [];
      outbound := [];
      waiters := map[];
      states := map[];
      nextId := 0;
      traces := [];
      notifications := [];
    }

    /** RegisterWaiter: a new pending waiter, enqueued at the tail of the
        queue of `command`, which is created when missing. */
    method RegisterWaiter(command: CommandId) returns (id: WaiterId)
      requires Valid()
      modifies this`waiters, this`states, this`nextId
      ensures Valid()
      ensures id == old(nextId) && id !in old(states) && nextId == id + 1
      ensures waiters == Enqueued(old(waiters), command, id)
      ensures states == old(states)[id := Pending]
    {
      id := nextId;
      nextId := nextId + 1;
      states := states[id := Pending];
      var queue := if command in waiters then waiters[command] else [];
      waiters := waiters[command := queue + [id]];
      assert waiters == Enqueued(old(waiters), command, id);
      assert Distinct(queue + [id]) by {
        assert id !in queue;
      }
      WithQueueKeepsValid(old(waiters), states, nextId, command, queue + [id]);
    }

    /** The cancellation callback of a waiter (TrySetCanceled): a pending
        waiter becomes cancelled and stays in its queue; a settled one is
        left alone. */
    method CancelWaiter(id: WaiterId)
      requires Valid() && id in states
      modifies this`states
      ensures Valid()
      ensures states == old(states)[id := if old(states)[id].Pending? then Cancelled else old(states)[id]]
    {
      if states[id].Pending? {
        SettleKeepsValid(waiters, states, nextId, id, Cancelled);
        states := states[id := Cancelled];
      }
    }

    /** RemoveWaiter: the queue of `command` rebuilt without `id`, keeping
        the order of the others, and dropped when nothing remains. */
    method RemoveWaiter(command: CommandId, id: WaiterId)
      requires Valid()
      modifies this`waiters
      ensures Valid()
      ensures waiters == Removed(old(waiters), command, id)
    {
      if command in waiters {
        var queue := waiters[command];
        var remaining: seq<WaiterId> := [];
        var i := 0;
        while i < |queue|
          invariant 0 <= i <= |queue|
          invariant remaining == Without(queue[..i], id)
          invariant waiters == old(waiters)
        {
          var current := queue[i];
          WithoutAppend(queue[..i], current, id);
          assert queue[..i + 1] == queue[..i] + [current];
          if current != id {
            remaining := remaining + [current];
          }
          i := i + 1;
        }
        assert queue[..i] == queue;
        WithoutDistinct(queue, id);
        forall j | 0 <= j < |remaining|
          ensures remaining[j] in states
        {
          assert remaining[j] in queue;
        }
        WithQueueKeepsValid(waiters, states, nextId, command, remaining);
        if |remaining| > 0 {
          waiters := waiters[command := remaining];
        } else {
          waiters := waiters - {command};
        }
        assert waiters == WithQueue(old(waiters), command, remaining);
      }
    }

    /** TryResumeWaiter: dequeue waiters of the frame's command until one
        accepts the frame; waiters already cancelled are dropped on the
        way. The frame goes to the first pending waiter of the queue, every
        waiter up to it leaves the queue, and without a pending waiter the
        queue is emptied and the frame is not taken. */
    method TryResumeWaiter(frame: Frame) returns (resumed: bool)
      requires Valid()
      modifies this`waiters, this`states
      decreases |Queue(waiters, CommandId(frame.command))|
      ensures Valid()
      ensures resumed == HasPendingWaiter(old(waiters), old(states), CommandId(frame.command))
      ensures waiters == ResumedRegistry(old(waiters), old(states), CommandId(frame.command))
      ensures states == ResumedStates(old(waiters), old(states), CommandId(frame.command), frame)
    {
      var c := CommandId(frame.command);
      if c in waiters && |waiters[c]| > 0 {
        var queue := waiters[c];
        var waiter := queue[0];
        assert waiter in states;
        assert Distinct(queue[1..]);
        WithQueueKeepsValid(waiters, states, nextId, c, queue[1..]);
        waiters := waiters[c := queue[1..]];
        if |queue[1..]| == 0 {
          waiters := waiters - {c};
        }
        assert waiters == WithQueue(old(waiters), c, queue[1..]);
        if states[waiter].Pending? {
          SettleKeepsValid(waiters, states, nextId, waiter, Completed(frame));
          states := states[waiter := Completed(frame)];
          return true;
        }
        ResumeAfterSkip(old(waiters), states, c, frame);
        resumed := TryResumeWaiter(frame);
      } else {
        WithQueueSame(waiters, c);
        return false;
      }
    }

    /** Dequeue every waiter of one queue and cancel it: pending waiters
        become cancelled, settled ones keep their outcome. */
    method CancelQueue(queue: seq<WaiterId>)
      requires forall i :: 0 <= i < |queue| ==> queue[i] in states
      modifies this`states
      ensures states == CancelAll(old(states), IdsOf(queue))
    {
      CancelNone(states);
      var i := 0;
      while i < |queue|
        invariant 0 <= i <= |queue|
        invariant states == CancelAll(old(states), IdsOf(queue[..i]))
      {
        var waiter := queue[i];
        CancelOneMore(old(states), IdsOf(queue[..i]), waiter);
        assert queue[..i + 1] == queue[..i] + [waiter];
        IdsOfSnoc(queue[..i], waiter);
        if states[waiter].Pending? {
          states := states[waiter := Cancelled];
        }
        i := i + 1;
      }
      assert queue[..i] == queue;
    }

    /** The waiter-clearing part of DisconnectAsync: every queued waiter is
        cancelled (TrySetCanceled, which leaves settled waiters alone) and
        the dictionary is cleared. The stream is closed, so nothing more is
        read. */
    method Disconnect()
      requires Valid()
      modifies this`connected, this`inbound, this`waiters, this`states
      ensures Valid()
      ensures !connected && inbound == [] && waiters == map[]
      ensures states == CancelAll(old(states), QueuedIds(old(waiters)))
    {
      connected := false;
      inbound := [];
      CancelQueued();
      waiters := map[];
    }

    /** The foreach over the dictionary's queues: each queue is drained,
        cancelling its pending waiters; the dictionary itself is left for
        the caller to clear. */
    method CancelQueued()
      requires QueuesKnown(waiters, states)
      modifies this`states
      ensures states == CancelAll(old(states), QueuedIds(waiters))
    {
      var keys := waiters.Keys;
      ghost var processed: set<CommandId> := {};
      CancelNone(states);
      while keys != {}
        invariant keys <= waiters.Keys && processed == waiters.Keys - keys
        invariant states.Keys == old(states).Keys
        invariant states == CancelAll(old(states), QueuedUnder(waiters, processed))
        decreases keys
      {
        var c :| c in keys;
        CancelQueue(waiters[c]);
        CancelOneQueue(old(states), waiters, processed, c);
        keys := keys - {c};
        processed := processed + {c};
      }
      QueuedUnderAll(waiters);
    }

    /** ConnectAsync: disconnect first, then take the new address and
        stream. */
    method Connect(readerAddress: bv8, stream: seq<bv8>)
      requires Valid()
      modifies this`address, this`connected, this`inbound, this`waiters, this`states
      ensures Valid()
      ensures connected && address == readerAddress && inbound == stream && waiters == map[]
      ensures states == CancelAll(old(states), QueuedIds(old(waiters)))
    {
      Disconnect();
      address := readerAddress;
      inbound := stream;
      connected := true;
    }

    /** SendAsync: refused without a stream, then refused for a payload
        over 255 bytes, in both cases before anything is built or written;
        otherwise the frame is built, traced and written. */
    method Send(command: Command, payload: seq<bv8>) returns (r: Result<(), SendError>)
      modifies this`outbound, this`traces
      ensures r.Success? <==> connected && |payload| <= MaxPayload
      ensures !connected ==> r == Failure(NotConnected)
      ensures connected && |payload| > MaxPayload ==> r == Failure(PayloadTooLong(|payload|))
      ensures r.Failure? ==> outbound == old(outbound) && traces == old(traces)
      ensures r.Success? ==>
        && outbound == old(outbound) + [Encode(address, Code(command), payload)]
        && traces == old(traces) + [TxTrace(address, Code(command), payload)]
    {
      if !connected {
        return Failure(NotConnected);
      }
      if |payload| > MaxPayload {
        return Failure(PayloadTooLong(|payload|));
      }
      var frame := BuildFrame(address, Code(command), payload);
      traces := traces + [TraceEvent(frame, true, address, Code(command), 0x00, |payload|, Tx)];
      outbound := outbound + [frame];
      r := Success(());
    }

    /** SendAndWaitAsync up to the await: a waiter is registered before the
        frame is sent, and removed again when the send is refused. On
        success the caller holds the waiter, which the receive loop
        settles. */
    method SendAndWait(command: Command, payload: seq<bv8>) returns (r: Result<WaiterId, SendError>)
      requires Valid()
      modifies this`waiters, this`states, this`nextId, this`outbound, this`traces
      ensures Valid()
      ensures r.Success? <==> connected && |payload| <= MaxPayload
      ensures r.Failure? ==> r.error == (if !connected then NotConnected else PayloadTooLong(|payload|))
      ensures r.Failure? ==> waiters == old(waiters) && outbound == old(outbound) && traces == old(traces)
      ensures states == old(states)[old(nextId) := Pending] && nextId == old(nextId) + 1
      ensures r.Success? ==>
        && r.value == old(nextId)
        && waiters == Enqueued(old(waiters), CommandId(Code(command)), r.value)
        && outbound == old(outbound) + [Encode(address, Code(command), payload)]
        && traces == old(traces) + [TxTrace(address, Code(command), payload)]
    {
      var c := CommandId(Code(command));
      var waiter := RegisterWaiter(c);
      var sent := Send(command, payload);
      if sent.Failure? {
        assert waiter !in Queue(old(waiters), c) by {
          var q := Queue(old(waiters), c);
          forall i | 0 <= i < |q|
            ensures q[i] != waiter
          {
            assert q[i] in old(states);
          }
        }
        RemoveWaiter(c, waiter);
        RemoveAfterEnqueue(old(waiters), c, waiter);
        return Failure(sent.error);
      }
      return Success(waiter);
    }

    /** ReadFrameAsync: nothing without a stream; otherwise skip to the
        head byte, read the header and the L + 2 bytes after it, check the
        CRC and trace the frame whether or not it matched. The frame is
        handed on only when it matched. The stream ending inside the read
        consumes what was left. */
    method ReadFrame() returns (r: ReadOutcome)
      modifies this`inbound, this`traces
      ensures !connected ==> r == NoStream && inbound == old(inbound) && traces == old(traces)
      ensures connected ==> inbound == Remaining(old(inbound))
      ensures connected && Decode(old(inbound)).Truncated? ==> r == StreamEnded && traces == old(traces)
      ensures connected && !Decode(old(inbound)).Truncated? ==>
        && traces == old(traces) + [ReadTrace(old(inbound))]
        && r == (if Decode(old(inbound)).Valid? then Received(Decode(old(inbound)).frame) else Dropped)
    {
      if !connected {
        return NoStream;
      }
      var i := FindHead(inbound);
      var t := inbound[i..];
      if |t| < 5 {
        TruncatedStep(inbound, i);
        inbound := [];
        return StreamEnded;
      }
      var length := t[4];
      var n := 7 + length as int;
      if |t| < n {
        TruncatedStep(inbound, i);
        inbound := [];
        return StreamEnded;
      }
      var raw := t[..n];
      ReadStep(old(inbound), i, raw);
      r := TakeFrame(i, raw);
    }

    /** The end of ReadFrameAsync, once the 7 + L bytes of a frame starting
        at offset i are in: the CRC check, the trace, and the frame handed
        on only when the CRC matched. */
    method TakeFrame(i: nat, raw: seq<bv8>) returns (r: ReadOutcome)
      requires WellSized(raw) && i + |raw| <= |inbound|
      modifies this`inbound, this`traces
      ensures inbound == old(inbound)[i + |raw|..]
      ensures traces == old(traces) + [RxTrace(raw, CrcMatches(raw))]
      ensures r == (if CrcMatches(raw) then Received(Parse(raw)) else Dropped)
    {
      var length := raw[4];
      var isValid := CheckCrc(raw);
      var address := raw[1];
      var command := BigEndian16(raw[2], raw[3]);
      var status: bv8 := if length > 0 then raw[5] else 0x00;
      var payloadLength := PayloadLength(length);
      traces := traces + [TraceEvent(raw, isValid, address, command, status, payloadLength,
                                     if isValid then Rx else RxCrcMismatch)];
      inbound := inbound[i + |raw|..];
      if !isValid {
        return Dropped;
      }
      var payload := raw[6..6 + payloadLength];
      r := Received(Frame(address, command, status, payload, raw));
    }

    /** DispatchUnsolicitedFrame: an INVENTORY_ISO_CONTINUE frame with
        status 0 whose payload parses raises TagReported; anything else
        raises nothing (a parse failure is only logged). */
    method DispatchUnsolicitedFrame(frame: Frame)
      modifies this`notifications
      ensures notifications == old(notifications) + UnsolicitedEvents(frame)
    {
      if frame.command == Code(InventoryIsoContinue) {
        if frame.status == 0x00 {
          var report := TagReports.TryParseInventoryPayload(frame.payload);
          if report.Some? {
            notifications := notifications + [TagReported(report.value)];
          }
        }
        return;
      }
    }

    /** The receive loop's handling of a frame that was read: FrameReceived
        is raised, the frame is offered to the waiters of its command, and
        a frame no waiter takes is dispatched as unsolicited. */
    method HandleFrame(frame: Frame) returns (resumed: bool)
      requires Valid()
      modifies this`waiters, this`states, this`notifications
      ensures Valid()
      ensures resumed == HasPendingWaiter(old(waiters), old(states), CommandId(frame.command))
      ensures waiters == ResumedRegistry(old(waiters), old(states), CommandId(frame.command))
      ensures states == ResumedStates(old(waiters), old(states), CommandId(frame.command), frame)
      ensures notifications ==
        old(notifications) + [FrameReceived(frame)] + (if resumed then [] else UnsolicitedEvents(frame))
    {
      notifications := notifications + [FrameReceived(frame)];
      resumed := TryResumeWaiter(frame);
      if !resumed {
        DispatchUnsolicitedFrame(frame);
      }
    }

    /** One turn of ReaderLoopAsync: read a frame and, when one was handed
        on, handle it. The loop goes on after a dropped frame and stops
        when the stream ends or there is none. */
    method ReceiveStep() returns (more: bool)
      requires Valid()
      modifies this`inbound, this`traces, this`waiters, this`states, this`notifications
      ensures Valid()
      ensures more <==> connected && !Decode(old(inbound)).Truncated?
      ensures connected ==> inbound == Remaining(old(inbound))
      ensures !connected ==> inbound == old(inbound)
      ensures connected && Decode(old(inbound)).Valid? ==>
        var frame := Decode(old(inbound)).frame;
        var c := CommandId(frame.command);
        && waiters == ResumedRegistry(old(waiters), old(states), c)
        && states == ResumedStates(old(waiters), old(states), c, frame)
        && notifications == old(notifications) + [FrameReceived(frame)]
             + (if HasPendingWaiter(old(waiters), old(states), c) then [] else UnsolicitedEvents(frame))
      ensures !(connected && Decode(old(inbound)).Valid?) ==>
        waiters == old(waiters) && states == old(states) && notifications == old(notifications)
      ensures more ==> traces == old(traces) + [ReadTrace(old(inbound))]
      ensures !more ==> traces == old(traces)
    {
      var outcome := ReadFrame();
      match outcome
      case NoStream => more := false;
      case StreamEnded => more := false;
      case Dropped => more := true;
      case Received(frame) =>
        var _ := HandleFrame(frame);
        more := true;
    }

    /** ReaderLoopAsync: read and handle frames until the stream ends. */
    method RunReceiveLoop()
      requires Valid()
      modifies this`inbound, this`traces, this`waiters, this`states, this`notifications
      ensures Valid()
      ensures connected ==> inbound == []
    {
      while true
        invariant Valid()
        decreases |inbound|
      {
        var more := ReceiveStep();
        if !more {
          return;
        }
      }
    }

    /** GetAllParametersAsync up to the await: a GET_ALL_PARAM request with
        an empty payload; ParametersReply reads the reply. */
    method GetAllParameters() returns (r: Result<WaiterId, SendError>)
      requires Valid()
      modifies this`waiters, this`states, this`nextId, this`outbound, this`traces
      ensures Valid()
      ensures r.Success? <==> connected
      ensures r.Failure? ==>
        r.error == NotConnected && waiters == old(waiters) && outbound == old(outbound) && traces == old(traces)
      ensures states == old(states)[old(nextId) := Pending] && nextId == old(nextId) + 1
      ensures r.Success? ==>
        && r.value == old(nextId)
        && waiters == Enqueued(old(waiters), CommandId(Code(Commands.GetAllParameters)), r.value)
        && outbound == old(outbound) + [Encode(address, Code(Commands.GetAllParameters), [])]
        && traces == old(traces) + [TxTrace(address, Code(Commands.GetAllParameters), [])]
    {
      r := SendAndWait(Commands.GetAllParameters, []);
    }

    /** SetAllParametersAsync up to the await: the record is encoded first,
        so a record whose frequency table is not eight bytes long is refused
        before any waiter is registered or frame written; StatusReply reads
        the reply. */
    method SetAllParameters(parameters: ReaderParameters.Parameters) returns (r: Result<WaiterId, OperationError>)
      requires Valid()
      modifies this`waiters, this`states, this`nextId, this`outbound, this`traces
      ensures Valid()
      ensures |parameters.rfidFrequency| != ReaderParameters.FrequencyTableLength ==>
        && r == Failure(InvalidParameters(ReaderParameters.BadFrequencyTable(|parameters.rfidFrequency|)))
        && waiters == old(waiters) && states == old(states) && nextId == old(nextId)
        && outbound == old(outbound) && traces == old(traces)
      ensures |parameters.rfidFrequency| == ReaderParameters.FrequencyTableLength ==>
        && (r.Success? <==> connected)
        && (r.Failure? ==>
              r.error == SendFailed(NotConnected) && waiters == old(waiters) && outbound == old(outbound)
              && traces == old(traces))
        && states == old(states)[old(nextId) := Pending] && nextId == old(nextId) + 1
      ensures r.Success? ==>
        && r.value == old(nextId)
        && waiters == Enqueued(old(waiters), CommandId(Code(Commands.SetAllParameters)), r.value)
        && outbound == old(outbound) + [Encode(address, Code(Commands.SetAllParameters), ReaderParameters.Layout(parameters))]
        && traces == old(traces) + [TxTrace(address, Code(Commands.SetAllParameters), ReaderParameters.Layout(parameters))]
    {
      var payload := ReaderParameters.ToPayload(parameters);
      if payload.Failure? {
        return Failure(InvalidParameters(payload.error));
      }
      var sent := SendAndWait(Commands.SetAllParameters, payload.value);
      if sent.Failure? {
        return Failure(SendFailed(sent.error));
      }
      r := Success(sent.value);
    }

    /** StartInventoryAsync: the request is sent and no reply is awaited;
        the tag reports arrive as unsolicited INVENTORY_ISO_CONTINUE
        frames. */
    method StartInventory(request: InventoryRequests.InventoryRequest) returns (r: Result<(), SendError>)
      modifies this`outbound, this`traces
      ensures r.Success? <==> connected
      ensures r.Failure? ==> r.error == NotConnected && outbound == old(outbound) && traces == old(traces)
      ensures r.Success? ==>
        && outbound == old(outbound) + [Encode(address, Code(InventoryIsoContinue), InventoryRequests.Layout(request))]
        && traces == old(traces) + [TxTrace(address, Code(InventoryIsoContinue), InventoryRequests.Layout(request))]
    {
      var payload := InventoryRequests.ToPayload(request);
      r := Send(InventoryIsoContinue, payload);
    }

    /** StopInventoryAsync up to the await: an INVENTORY_STOP request with
        an empty payload; StatusReply reads the reply. */
    method StopInventory() returns (r: Result<WaiterId, SendError>)
      requires Valid()
      modifies this`waiters, this`states, this`nextId, this`outbound, this`traces
      ensures Valid()
      ensures r.Success? <==> connected
      ensures r.Failure? ==>
        r.error == NotConnected && waiters == old(waiters) && outbound == old(outbound) && traces == old(traces)
      ensures states == old(states)[old(nextId) := Pending] && nextId == old(nextId) + 1
      ensures r.Success? ==>
        && r.value == old(nextId)
        && waiters == Enqueued(old(waiters), CommandId(Code(InventoryStop)), r.value)
        && outbound == old(outbound) + [Encode(address, Code(InventoryStop), [])]
        && traces == old(traces) + [TxTrace(address, Code(InventoryStop), [])]
    {
      r := SendAndWait(InventoryStop, []);
    }

    /** PulseRelayAsync up to the await: a RELAY request carrying the relay
        payload; StatusReply reads the reply. */
    method PulseRelay(close: bool) returns (r: Result<WaiterId, SendError>)
      requires Valid()
      modifies this`waiters, this`states, this`nextId, this`outbound, this`traces
      ensures Valid()
      ensures r.Success? <==> connected
      ensures r.Failure? ==>
        r.error == NotConnected && waiters == old(waiters) && outbound == old(outbound) && traces == old(traces)
      ensures states == old(states)[old(nextId) := Pending] && nextId == old(nextId) + 1
      ensures r.Success? ==>
        && r.value == old(nextId)
        && waiters == Enqueued(old(waiters), CommandId(Code(RelayControl)), r.value)
        && outbound == old(outbound) + [Encode(address, Code(RelayControl), RelayPayload(close))]
        && traces == old(traces) + [TxTrace(address, Code(RelayControl), RelayPayload(close))]
    {
      var payload: seq<bv8> := [0x02, if close then 0x00 else 0x01];
      r := SendAndWait(RelayControl, payload);
    }
  }
}
