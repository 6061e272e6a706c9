/** End-to-end runs of a ReaderClient over the whole request/response
    cycle: requests sent, reply frames handed to the receive path, and what
    each caller's waiter ends up holding. */
module ClientScenarios {

  import opened Wrappers
  import opened Commands
  import opened Frames
  import opened WaiterQueues
  import opened ReaderSession
  import ReaderParameters

  /** A GET_ALL_PARAM reply from the reader at address 0xFF. */
  predicate IsGetAllReply(f: Frame) {
    f.command == Code(Commands.GetAllParameters)
  }

  /** A new client connected to the reader at 0xFF, with nothing on the
      stream: no waiter registered yet, nothing sent. */
  method ConnectedClient() returns (client: ReaderClient)
    ensures fresh(client) && client.Valid() && client.connected && client.address == 0xFF
    ensures client.waiters == map[] && client.states == map[] && client.nextId == 0
  {
    client := new ReaderClient();
    client.Connect(0xFF, []);
  }

  /** Two GET_ALL_PARAM requests in flight: the first reply goes to the
      first caller and the second to the second, whatever they carry. */
  method FirstInFirstOut(a: Frame, b: Frame) returns (first: WaiterState, second: WaiterState)
    requires IsGetAllReply(a) && IsGetAllReply(b)
    ensures first == Completed(a) && second == Completed(b)
  {
    var client := ConnectedClient();
    var r1 := client.GetAllParameters();
    var r2 := client.GetAllParameters();
    var c := CommandId(Code(Commands.GetAllParameters));
    assert client.waiters[c] == [0, 1];
    ResumeTakesHead(client.waiters, client.states, c, a);
    var resumedA := client.HandleFrame(a);
    assert client.waiters[c] == [1];
    ResumeTakesHead(client.waiters, client.states, c, b);
    var resumedB := client.HandleFrame(b);
    first := client.states[0];
    second := client.states[1];
  }

  /** A reply for one command does not settle a waiter for another: a
      pending GET_ALL_PARAM caller stays pending when a RELAY reply
      arrives, and the RELAY frame is reported as unsolicited. */
  method OtherCommandIgnored(relayReply: Frame) returns (waiter: WaiterState, resumed: bool)
    requires relayReply.command == Code(RelayControl)
    ensures waiter == Pending && !resumed
  {
    var client := ConnectedClient();
    var r := client.GetAllParameters();
    var c := CommandId(Code(Commands.GetAllParameters));
    var d := CommandId(relayReply.command);
    assert c != d by { CodesDistinct(Commands.GetAllParameters, RelayControl); }
    assert d !in client.waiters;
    resumed := client.HandleFrame(relayReply);
    waiter := client.states[0];
  }

  /** Disconnecting cancels the outstanding waiter, and disconnecting a
      second time changes nothing further. */
  method DisconnectTwice() returns (afterFirst: WaiterState, afterSecond: WaiterState, queued: bool)
    ensures afterFirst == Cancelled && afterSecond == Cancelled && !queued
  {
    var client := ConnectedClient();
    var r := client.StopInventory();
    var c := CommandId(Code(InventoryStop));
    assert c in client.waiters && client.waiters[c] == [0];
    assert 0 in client.waiters[c];
    assert 0 in QueuedIds(client.waiters);
    client.Disconnect();
    afterFirst := client.states[0];
    client.Disconnect();
    afterSecond := client.states[0];
    queued := client.waiters != map[];
  }

  /** A parameter record written with SET_ALL_PARAM and echoed back by the
      reader in a GET_ALL_PARAM reply is read back unchanged. */
  method ParametersEcho(p: ReaderParameters.Parameters, status: bv8, raw: seq<bv8>) returns (reply: Option<Result<ReaderParameters.Parameters, OperationError>>)
    requires |p.rfidFrequency| == ReaderParameters.FrequencyTableLength
    ensures reply == Some(Success(p))
  {
    var client := WriteThenRead(p);
    var echo := Frame(0xFF, Code(Commands.GetAllParameters), status, ReaderParameters.Layout(p), raw);
    var c := CommandId(echo.command);
    ResumeTakesHead(client.waiters, client.states, c, echo);
    var resumed := client.HandleFrame(echo);
    EchoRead(p, echo);
    reply := ParametersReply(client.states[1]);
  }

  /** SET_ALL_PARAM then GET_ALL_PARAM on a new connection: the read
      request's waiter is the only one queued for GET_ALL_PARAM, and is
      pending. */
  method WriteThenRead(p: ReaderParameters.Parameters) returns (client: ReaderClient)
    requires |p.rfidFrequency| == ReaderParameters.FrequencyTableLength
    ensures fresh(client) && client.Valid()
    ensures var c := CommandId(Code(Commands.GetAllParameters));
      c in client.waiters && client.waiters[c] == [1] && 1 in client.states && client.states[1] == Pending
  {
    client := WriteParameters(p);
    var requested := client.GetAllParameters();
  }

  /** SET_ALL_PARAM on a new connection: its waiter is registered under
      SET_ALL_PARAM, so nothing waits for GET_ALL_PARAM yet. */
  method WriteParameters(p: ReaderParameters.Parameters) returns (client: ReaderClient)
    requires |p.rfidFrequency| == ReaderParameters.FrequencyTableLength
    ensures fresh(client) && client.Valid() && client.connected
    ensures Queue(client.waiters, CommandId(Code(Commands.GetAllParameters))) == []
    ensures client.states == map[0 := Pending] && client.nextId == 1
  {
    client := ConnectedClient();
    var written := client.SetAllParameters(p);
    assert CommandId(Code(Commands.SetAllParameters)) != CommandId(Code(Commands.GetAllParameters));
  }

  /** A reply whose payload is the layout of a record reads back as that
      record, whatever its status byte. */
  lemma EchoRead(p: ReaderParameters.Parameters, echo: Frame)
    requires |p.rfidFrequency| == ReaderParameters.FrequencyTableLength
    requires echo.payload == ReaderParameters.Layout(p)
    ensures ParametersReply(Completed(echo)) == Some(Success(p))
  {
    ReaderParameters.FromLayout(p);
  }
}
