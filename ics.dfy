/**
 * sel_ics.py: `SEL787Scanner` runs two Modbus/TCP checks against a relay and
 * collects one classified line per check in its `report`. The Modbus client
 * is reduced to what the checks observe of it: whether `connect()` succeeds,
 * and what `read_holding_registers` and `write_coil` return or raise. How a
 * relay answers one connection is a `Link`, given to each check as input.
 */
module Ics {
  import opened Text

  /** A call that returns a value or raises an exception with a message. */
  datatype Reply<T> = Raised(msg: string) | Returned(value: T)

  /** A `read_holding_registers` result: its Python truthiness and its `str()` text. */
  datatype ReadResult = ReadResult(truthy: bool, text: string)

  /** A `write_coil` result: whether it has an `isError` method, and what that method returns. */
  datatype WriteResult = WriteResult(hasIsError: bool, isError: bool)

  /** How the relay behaves on one connection. */
  datatype Link = Link(reachable: bool, readReply: Reply<ReadResult>, writeReply: Reply<WriteResult>)

  /** A request the client sent. */
  datatype Request = ReadRegisters(address: nat) | WriteCoil(address: nat, value: bool)

  /** The client of one check: it records what was sent and how often it was closed. */
  class ModbusClient {
    const ip: string
    const link: Link
    var connected: bool
    var requests: seq<Request>
    var closeCount: nat

    constructor (ip: string, link: Link)
      ensures this.ip == ip && this.link == link
      ensures !connected && requests == [] && closeCount == 0
    {
      this.ip := ip;
      this.link := link;
      connected := false;
      requests := [];
      closeCount := 0;
    }

    method Connect() returns (ok: bool)
      modifies this
      ensures ok == link.reachable && connected == ok
      ensures requests == old(requests) && closeCount == old(closeCount)
    {
      connected := link.reachable;
      ok := connected;
    }

    method ReadHoldingRegisters(address: nat) returns (r: Reply<ReadResult>)
      modifies this
      ensures r == link.readReply
      ensures requests == old(requests) + [ReadRegisters(address)]
      ensures connected == old(connected) && closeCount == old(closeCount)
    {
      requests := requests + [ReadRegisters(address)];
      r := link.readReply;
    }

    method WriteCoilRequest(address: nat, value: bool) returns (r: Reply<WriteResult>)
      modifies this
      ensures r == link.writeReply
      ensures requests == old(requests) + [WriteCoil(address, value)]
      ensures connected == old(connected) && closeCount == old(closeCount)
    {
      requests := requests + [WriteCoil(address, value)];
      r := link.writeReply;
    }

    /** Closing drops the connection and counts one more close. */
    method Close()
      modifies this
      ensures closeCount == old(closeCount) + 1 && !connected
      ensures requests == old(requests)
    {
      closeCount := closeCount + 1;
      connected := false;
    }
  }

  const ErrorTag := "[Modbus] ERROR: "
  const PassTag := "[Modbus] PASS: "
  const CriticalTag := "[Modbus] CRITICAL: "
  const InfoTag := "[Modbus] INFO: "

  const ConnectFailed := ErrorTag + "Connection failed"
  const CoilConnectFailed := ErrorTag + "Connection failed (writable coil test)"
  const DeviceIdPrefix := InfoTag + "Device ID Response: "
  const NoDeviceId := InfoTag + "No Device ID response."
  const CoilBlocked := PassTag + "Coil write blocked (expected behavior)"
  const CoilAccepted := CriticalTag + "Coil write accepted! Remote trip possible."

  /** The line `modbus_device_id` appends for a relay that behaves as `link`: always INFO or ERROR. */
  function DeviceIdLine(link: Link): (line: string)
    ensures LevelOf(line) == Info || LevelOf(line) == Error
  {
    FixedLevels();
    if !link.reachable then ConnectFailed
    else match link.readReply
      case Raised(msg) =>
        ErrorLevel(msg);
        ErrorTag + msg
      case Returned(r) =>
        if r.truthy then
          InfoLevel("Device ID Response: " + r.text);
          assert DeviceIdPrefix + r.text == InfoTag + ("Device ID Response: " + r.text);
          DeviceIdPrefix + r.text
        else NoDeviceId
  }

  /** The line `modbus_writable_coil` appends for a relay that behaves as `link`: always ERROR, PASS or CRITICAL. */
  function CoilLine(link: Link): (line: string)
    ensures LevelOf(line) == Error || LevelOf(line) == Pass || LevelOf(line) == Critical
  {
    FixedLevels();
    if !link.reachable then CoilConnectFailed
    else match link.writeReply
      case Raised(msg) =>
        ErrorLevel(msg);
        ErrorTag + msg
      case Returned(w) => if w.hasIsError && w.isError then CoilBlocked else CoilAccepted
  }

  /** The severity a report line announces after its "[Modbus] " tag. */
  datatype Level = Error | Pass | Critical | Info | Unmarked

  function LevelOf(line: string): Level {
    if ErrorTag <= line then Error
    else if PassTag <= line then Pass
    else if CriticalTag <= line then Critical
    else if InfoTag <= line then Info
    else Unmarked
  }

  class Sel787Scanner {
    const ip: string
    var report: seq<string>

    constructor (ip: string)
      ensures this.ip == ip && report == []
    {
      this.ip := ip;
      report := [];
    }

    /** `modbus_device_id()`: one line appended; the client is closed exactly when it connected. */
    method ModbusDeviceId(link: Link) returns (client: ModbusClient)
      modifies this
      ensures fresh(client)
      ensures report == old(report) + [DeviceIdLine(link)]
      ensures client.closeCount == (if link.reachable then 1 else 0)
      ensures client.requests == (if link.reachable then [ReadRegisters(0)] else [])
    {
      client := new ModbusClient(ip, link);
      var ok := client.Connect();
      if !ok {
        report := report + [ConnectFailed];
        return;
      }
      var result := client.ReadHoldingRegisters(0);
      match result {
        case Raised(msg) =>
          report := report + [ErrorTag + msg];
        case Returned(r) =>
          if r.truthy {
            report := report + [DeviceIdPrefix + r.text];
          } else {
            report := report + [NoDeviceId];
          }
      }
      client.Close();
    }

    /**
     * `modbus_writable_coil(test_coil)`: one line appended; no write when the
     * connection fails; otherwise one write of True to `testCoil` and one close.
     */
    method ModbusWritableCoil(link: Link, testCoil: nat := 1) returns (client: ModbusClient)
      modifies this
      ensures fresh(client)
      ensures report == old(report) + [CoilLine(link)]
      ensures client.closeCount == (if link.reachable then 1 else 0)
      ensures client.requests == (if link.reachable then [WriteCoil(testCoil, true)] else [])
    {
      client := new ModbusClient(ip, link);
      var ok := client.Connect();
      if !ok {
        report := report + [CoilConnectFailed];
        return;
      }
      var result := client.WriteCoilRequest(testCoil, true);
      match result {
        case Raised(msg) =>
          report := report + [ErrorTag + msg];
        case Returned(w) =>
          if w.hasIsError && w.isError {
            report := report + [CoilBlocked];
          } else {
            report := report + [CoilAccepted];
          }
      }
      client.Close();
    }

    /** `scan()`: the device-id check, then the coil check, then every report line joined by "\n". */
    method Scan(deviceLink: Link, coilLink: Link) returns (text: string)
      modifies this
      ensures report == old(report) + [DeviceIdLine(deviceLink), CoilLine(coilLink)]
      ensures text == Join(report)
    {
      var c1 := ModbusDeviceId(deviceLink);
      var c2 := ModbusWritableCoil(coilLink);
      text := Join(report);
    }
  }

  // ---------------------------------------------------------------------------
  // How the checks classify

  /**
   * The coil check reports PASS exactly when the write returned a result
   * whose `isError()` is true, CRITICAL for any other returned result
   * (including one without `isError`), and ERROR when the connection failed
   * or the write raised.
   */
  lemma CoilVerdict(link: Link)
    ensures LevelOf(CoilLine(link)) == Pass <==>
              link.reachable && link.writeReply.Returned? && link.writeReply.value.hasIsError && link.writeReply.value.isError
    ensures LevelOf(CoilLine(link)) == Critical <==>
              link.reachable && link.writeReply.Returned?
              && !(link.writeReply.value.hasIsError && link.writeReply.value.isError)
    ensures LevelOf(CoilLine(link)) == Error <==> !link.reachable || link.writeReply.Raised?
  {
    FixedLevels();
    if link.reachable && link.writeReply.Raised? {
      ErrorLevel(link.writeReply.msg);
    }
  }

  /**
   * The device-id check reports INFO exactly when the read returned (with the
   * response text when it is truthy), and ERROR when the connection failed or
   * the read raised.
   */
  lemma DeviceIdVerdict(link: Link)
    ensures LevelOf(DeviceIdLine(link)) == Info <==> link.reachable && link.readReply.Returned?
    ensures LevelOf(DeviceIdLine(link)) == Error <==> !link.reachable || link.readReply.Raised?
    ensures link.reachable && link.readReply.Returned? && link.readReply.value.truthy ==>
              DeviceIdLine(link) == DeviceIdPrefix + link.readReply.value.text
  {
    FixedLevels();
    if link.reachable {
      match link.readReply
      case Raised(msg) => ErrorLevel(msg);
      case Returned(r) =>
        InfoLevel("Device ID Response: " + r.text);
        assert DeviceIdPrefix + r.text == InfoTag + ("Device ID Response: " + r.text);
    }
  }

  /** The fixed lines announce the level their text names. */
  lemma FixedLevels()
    ensures LevelOf(ConnectFailed) == Error && LevelOf(CoilConnectFailed) == Error
    ensures LevelOf(CoilBlocked) == Pass && LevelOf(CoilAccepted) == Critical && LevelOf(NoDeviceId) == Info
  {
    ErrorLevel("Connection failed");
    ErrorLevel("Connection failed (writable coil test)");
    PassLevel("Coil write blocked (expected behavior)");
    CriticalLevel("Coil write accepted! Remote trip possible.");
    InfoLevel("No Device ID response.");
  }

  lemma ErrorLevel(text: string)
    ensures LevelOf(ErrorTag + text) == Error
  {
    assert ErrorTag <= ErrorTag + text;
  }

  lemma PassLevel(text: string)
    ensures LevelOf(PassTag + text) == Pass
  {
    var line := PassTag + text;
    assert line[9] == PassTag[9] == 'P';
    assert PassTag <= line;
  }

  lemma CriticalLevel(text: string)
    ensures LevelOf(CriticalTag + text) == Critical
  {
    var line := CriticalTag + text;
    assert line[9] == CriticalTag[9] == 'C';
    assert CriticalTag <= line;
  }

  lemma InfoLevel(text: string)
    ensures LevelOf(InfoTag + text) == Info
  {
    var line := InfoTag + text;
    assert line[9] == InfoTag[9] == 'I';
    assert InfoTag <= line;
  }

  /**
   * The report is never cleared: a later scan's text is the earlier text, a
   * newline, and the new lines.
   */
  lemma ScanAccumulates(before: seq<string>, l1: string, l2: string)
    requires before != []
    ensures Join(before + [l1, l2]) == Join(before) + "\n" + (l1 + "\n" + l2)
  {
    JoinAppend(before, [l1, l2]);
    assert [l1, l2][1..] == [l2];
  }

  /** Splitting a scan's text at its line boundaries gives the report back when no line holds a boundary. */
  lemma ScanSplits(report: seq<string>)
    requires forall k :: 0 <= k < |report| ==> NoLineBreak(report[k])
    requires report != [] ==> report[|report| - 1] != []
    ensures SplitLines(Join(report)) == report
  {
    SplitLinesJoin(report);
  }
}
