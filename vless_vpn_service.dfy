/**
 * `VlessVpnService`: the direct TCP tunnel used by the view model.  `Connect` opens a
 * TCP connection (racing it against a five-second timer), writes a short legacy
 * handshake, marks the service connected and starts a read loop; every failure is
 * turned into one status message followed by a silent `Disconnect`.
 *
 * As in `NetworkConnectionManager`, the network is a parameter: how the connect race
 * ended, whether the handshake write faulted, what a read returned.  Notifications go
 * to `statusLog`, written bytes to `sent`.
 */
module VlessVpnService {
  import opened Wrappers
  import opened Text
  import opened Bytes
  import opened Config
  import opened NetworkConnectionManager

  // ---------------------------------------------------------------- failures and their messages

  /** `SocketException.SocketErrorCode`: the three codes with their own text, and any other by name. */
  datatype SocketError = ConnectionRefused | HostUnreachable | NetworkUnreachable | OtherSocketError(name: string)

  /** The exceptions `Connect` catches: a `TimeoutException`, a `SocketException`, or any other with its message. */
  datatype ConnectError = Timeout | Socket(code: SocketError) | General(message: string)

  const TimeoutText := "Connection timeout (server not responding)"
  const RefusedText := "Connection refused (server is down)"
  const HostUnreachableText := "Host unreachable (check network)"
  const NetworkUnreachableText := "Network unavailable"
  const NetworkErrorPrefix := "Network error: "
  const ConnectionErrorPrefix := "Connection error: "
  const NotConnectedAfterRace := "Connection failed without exception"

  /** Characters 0, 8 and 11 of each kind of message; they tell the kinds apart. */
  function MessageTag(e: ConnectError): seq<char> {
    match e
    case Timeout => "Cot"
    case Socket(ConnectionRefused) => "Cor"
    case Socket(HostUnreachable) => "Heh"
    case Socket(NetworkUnreachable) => "Nuv"
    case Socket(OtherSocketError(_)) => "Neo"
    case General(_) => "Coe"
  }

  /**
   * The status text `Connect`'s catch block raises for an exception: a fixed text for
   * the timeout and the three named socket errors; a socket code without its own text
   * or a general exception keeps its name or message after the kind's prefix.
   */
  function ErrorMessage(e: ConnectError): (m: string)
    ensures e == Timeout ==> m == TimeoutText
    ensures e == Socket(ConnectionRefused) ==> m == RefusedText
    ensures e == Socket(HostUnreachable) ==> m == HostUnreachableText
    ensures e == Socket(NetworkUnreachable) ==> m == NetworkUnreachableText
    ensures e.Socket? && e.code.OtherSocketError? ==>
      |m| >= |NetworkErrorPrefix| && m[..|NetworkErrorPrefix|] == NetworkErrorPrefix && m[|NetworkErrorPrefix|..] == e.code.name
    ensures e.General? ==>
      |m| >= |ConnectionErrorPrefix| && m[..|ConnectionErrorPrefix|] == ConnectionErrorPrefix && m[|ConnectionErrorPrefix|..] == e.message
  {
    match e
    case Timeout => TimeoutText
    case Socket(ConnectionRefused) => RefusedText
    case Socket(HostUnreachable) => HostUnreachableText
    case Socket(NetworkUnreachable) => NetworkUnreachableText
    case Socket(OtherSocketError(name)) => NetworkErrorPrefix + name
    case General(m) => ConnectionErrorPrefix + m
  }

  lemma MessageTagOf(e: ConnectError)
    ensures |ErrorMessage(e)| > 11
    ensures [ErrorMessage(e)[0], ErrorMessage(e)[8], ErrorMessage(e)[11]] == MessageTag(e)
  {
    match e
    case Socket(OtherSocketError(name)) =>
      assert ErrorMessage(e)[..|NetworkErrorPrefix|] == NetworkErrorPrefix;
    case General(message) =>
      assert ErrorMessage(e)[..|ConnectionErrorPrefix|] == ConnectionErrorPrefix;
    case _ =>
  }

  /** Different failures are reported with different texts, so the status line identifies the failure. */
  lemma ErrorMessageInjective(e1: ConnectError, e2: ConnectError)
    ensures ErrorMessage(e1) == ErrorMessage(e2) <==> e1 == e2
  {
    if ErrorMessage(e1) == ErrorMessage(e2) {
      var m := ErrorMessage(e1);
      MessageTagOf(e1);
      MessageTagOf(e2);
      if e1.Socket? && e1.code.OtherSocketError? {
        assert e2.Socket? && e2.code.OtherSocketError?;
        assert e1.code.name == m[|NetworkErrorPrefix|..] == e2.code.name;
      } else if e1.General? {
        assert e2.General?;
        assert e1.message == m[|ConnectionErrorPrefix|..] == e2.message;
      }
    }
  }

  /** How `WhenAny(connectTask, Delay(5 s))` ended: the timer first, or the connect, successfully or with a socket error. */
  datatype ConnectRace = TimerFirst | ConnectDone(fault: Option<SocketError>)

  /**
   * The connect phase AS WRITTEN.  An out-of-range port makes `ConnectAsync` throw
   * before any task exists.  When the connect task ends first, the code never awaits
   * it; it only checks `Connected`, so a faulted connect becomes a plain exception
   * with a fixed message and its socket error code is lost.
   */
  function ConnectPhaseAsWritten(port: int, race: ConnectRace): (r: Option<ConnectError>)
    ensures r.None? <==> 0 <= port <= 65535 && race == ConnectDone(None)
    ensures r.Some? ==> !r.value.Socket?
  {
    if !(0 <= port <= 65535) then Some(General(PortOutOfRangeMessage))
    else match race
      case TimerFirst => Some(Timeout)
      case ConnectDone(None) => None
      case ConnectDone(Some(_)) => Some(General(NotConnectedAfterRace))
  }

  /** A refused connection is reported as a generic error, never with the refused-specific text. */
  lemma RefusedReportedAsGenericError()
    ensures ErrorMessage(ConnectPhaseAsWritten(443, ConnectDone(Some(ConnectionRefused))).value)
      == ConnectionErrorPrefix + NotConnectedAfterRace
    ensures forall port: int, code: SocketError ::
      ConnectPhaseAsWritten(port, ConnectDone(Some(code))).value != Socket(code)
    ensures ErrorMessage(ConnectPhaseAsWritten(443, ConnectDone(Some(ConnectionRefused))).value) != RefusedText
  {
    var e := ConnectPhaseAsWritten(443, ConnectDone(Some(ConnectionRefused)));
    assert e == Some(General(NotConnectedAfterRace));
    ErrorMessageInjective(General(NotConnectedAfterRace), Socket(ConnectionRefused));
  }

  /** The connect phase as intended: the faulted connect task is awaited, so its `SocketException` reaches the mapping. */
  function ConnectPhase(port: int, race: ConnectRace): (r: Option<ConnectError>)
    ensures r.None? <==> 0 <= port <= 65535 && race == ConnectDone(None)
    ensures r == Some(Timeout) <==> 0 <= port <= 65535 && race == TimerFirst
    ensures r.Some? && r.value.Socket? <==> 0 <= port <= 65535 && race.ConnectDone? && race.fault.Some?
  {
    if !(0 <= port <= 65535) then Some(General(PortOutOfRangeMessage))
    else match race
      case TimerFirst => Some(Timeout)
      case ConnectDone(None) => None
      case ConnectDone(Some(code)) => Some(Socket(code))
  }

  /**
   * With the connect task awaited, every socket error gets its own text, and the
   * intended phase differs from the written one only on faulted connects.
   */
  lemma ConnectPhaseReportsSocketError(port: int, race: ConnectRace)
    ensures 0 <= port <= 65535 && race.ConnectDone? && race.fault.Some? ==>
      ConnectPhase(port, race) == Some(Socket(race.fault.value))
      && ErrorMessage(ConnectPhase(port, race).value) != ErrorMessage(ConnectPhaseAsWritten(port, race).value)
    ensures !(0 <= port <= 65535 && race.ConnectDone? && race.fault.Some?) ==>
      ConnectPhase(port, race) == ConnectPhaseAsWritten(port, race)
  {
    if 0 <= port <= 65535 && race.ConnectDone? && race.fault.Some? {
      ErrorMessageInjective(Socket(race.fault.value), General(NotConnectedAfterRace));
    }
  }

  // ---------------------------------------------------------------- the legacy handshake

  /** The flow text `SendVlessHandshake` appends: nothing for a null or empty flow. */
  function FlowText(config: VlessConfig): string {
    if config.flow.Some? then config.flow.value else ""
  }

  /**
   * `SendVlessHandshake`: byte 1, then the UTF-8 id, then the UTF-8 flow when there is
   * one; the two texts are written back to back.
   */
  function HandshakeBytes(config: VlessConfig): (b: seq<byte>)
    ensures b == [1] + Utf8Encode(config.id + FlowText(config))
  {
    Utf8EncodeConcat(config.id, FlowText(config));
    assert FlowText(config) == "" ==> config.id + FlowText(config) == config.id;
    [1] + Utf8Encode(config.id) + (if FlowText(config) != "" then Utf8Encode(FlowText(config)) else [])
  }

  /** The handshake is byte 1 followed by the UTF-8 of the id and flow written back to back. */
  lemma HandshakeLayout(config: VlessConfig)
    ensures IsAscii(config.id + FlowText(config)) ==> |HandshakeBytes(config)| == 1 + |config.id| + |FlowText(config)|
  {
    Utf8EncodeConcat(config.id, FlowText(config));
    if FlowText(config) == "" {
      assert config.id + FlowText(config) == config.id;
    }
    if IsAscii(config.id + FlowText(config)) {
      Utf8EncodeAscii(config.id + FlowText(config));
    }
  }

  /**
   * Nothing separates the id from the flow, so two configs whose id and flow join to
   * the same text send the same handshake.
   */
  lemma HandshakeNotSelfDelimiting(c1: VlessConfig, c2: VlessConfig)
    requires c1.id + FlowText(c1) == c2.id + FlowText(c2)
    ensures HandshakeBytes(c1) == HandshakeBytes(c2)
  {
    HandshakeLayout(c1);
    HandshakeLayout(c2);
  }

  /**
   * How a whole `Connect` ends: the connect phase as written, then the handshake write.
   * It succeeds exactly when the port is valid, the connect wins the race without a
   * fault and the write goes through; the timeout is reported exactly when the timer wins.
   */
  function ServiceFailure(config: VlessConfig, race: ConnectRace, writeFault: Option<string>): (r: Option<ConnectError>)
    ensures r.None? <==> 0 <= config.port <= 65535 && race == ConnectDone(None) && writeFault.None?
    ensures r == Some(Timeout) <==> 0 <= config.port <= 65535 && race == TimerFirst
    ensures r.Some? ==> !r.value.Socket?
  {
    match ConnectPhaseAsWritten(config.port, race)
    case Some(e) => Some(e)
    case None => if writeFault.Some? then Some(General(writeFault.value)) else None
  }

  // ---------------------------------------------------------------- the service

  class VlessVpnService {
    var hasClient: bool
    var stream: bool
    var isConnected: bool
    var cts: CancellationState
    var bytesReceived: int
    var bytesSent: int
    /** Statuses raised through `ConnectionStatusChanged`, oldest first. */
    var statusLog: seq<string>
    /** Every byte written to a network stream, oldest first. */
    var sent: seq<byte>

    /**
     * A connected service has its client and stream; a stream has its client; a client
     * exists exactly while the token source is live.  `_bytesSent` is never written.
     */
    predicate Valid()
      reads this
    {
      && (isConnected ==> stream)
      && (stream ==> hasClient)
      && (hasClient <==> cts == Live)
      && bytesReceived >= 0
      && bytesSent == 0
    }

    constructor()
      ensures Valid() && !isConnected && !stream && !hasClient && cts == NoSource
      ensures bytesReceived == 0 && bytesSent == 0 && statusLog == [] && sent == []
    {
      hasClient := false;
      stream := false;
      isConnected := false;
      cts := NoSource;
      bytesReceived := 0;
      bytesSent := 0;
      statusLog := [];
      sent := [];
    }

    /**
     * `Disconnect`: cancel the token source, drop stream and client, clear the flag.
     * Its "Disconnected" guard reads the token just cancelled (or a missing source), so
     * it is false on every call and nothing is raised.
     */
    method Disconnect()
      requires Valid()
      modifies this
      ensures Valid()
      ensures !isConnected && !stream && !hasClient
      ensures cts == (if old(cts) == NoSource then NoSource else Cancelled)
      ensures statusLog == old(statusLog) && sent == old(sent) && bytesReceived == old(bytesReceived)
    {
      if cts != NoSource {
        cts := Cancelled;
      }
      stream := false;
      hasClient := false;
      isConnected := false;
    }

    /**
     * `Connect`: "Connecting...", then the connect race and the handshake write; on
     * success the service is connected and raises "Connected", on failure it raises the
     * failure's text and disconnects.  It never throws.
     */
    method Connect(config: VlessConfig, race: ConnectRace, writeFault: Option<string>) returns (ok: bool)
      requires Valid()
      modifies this
      ensures Valid()
      ensures ok <==> ServiceFailure(config, race, writeFault).None?
      ensures ok ==> statusLog == old(statusLog) + ["Connecting...", "Connected"]
      ensures !ok ==> statusLog == old(statusLog) + ["Connecting...", ErrorMessage(ServiceFailure(config, race, writeFault).value)]
      ensures ok ==> isConnected && stream && hasClient && cts == Live && sent == old(sent) + HandshakeBytes(config)
      ensures !ok ==> !isConnected && !stream && !hasClient && cts == Cancelled && sent == old(sent)
      ensures bytesReceived == old(bytesReceived)
    {
      if isConnected {
        Disconnect();
      }
      statusLog := statusLog + ["Connecting..."];
      hasClient := true;
      cts := Live;
      var failure := ConnectPhaseAsWritten(config.port, race);
      if failure.None? {
        stream := true;
        if writeFault.Some? {
          failure := Some(General(writeFault.value));
        } else {
          sent := sent + HandshakeBytes(config);
        }
      }
      if failure.Some? {
        statusLog := statusLog + [ErrorMessage(failure.value)];
        Disconnect();
        return false;
      }
      isConnected := true;
      statusLog := statusLog + ["Connected"];
      ok := true;
    }

    /**
     * One pass of `ReadDataAsync`'s loop: stop once the token is cancelled or the client
     * is gone; otherwise read into the 4096-byte buffer, disconnecting and stopping on a
     * zero-byte read or a fault, and otherwise counting the bytes.  Returns whether the
     * loop goes on.
     */
    method ReadDataStep(incoming: ReadOutcome) returns (more: bool)
      requires Valid()
      requires incoming.Read? ==> |incoming.data| <= 4096
      modifies this
      ensures Valid()
      ensures old(cts) != Live ==>
        !more && isConnected == old(isConnected) && bytesReceived == old(bytesReceived)
        && stream == old(stream) && hasClient == old(hasClient) && cts == old(cts)
      ensures old(cts) == Live && incoming.Read? && incoming.data != [] ==>
        more && bytesReceived == old(bytesReceived) + |incoming.data| && isConnected == old(isConnected)
        && stream == old(stream) && hasClient == old(hasClient) && cts == old(cts)
      ensures old(cts) == Live && (incoming.ReadFault? || incoming.data == []) ==>
        !more && !isConnected && !hasClient && cts == Cancelled && bytesReceived == old(bytesReceived)
      ensures statusLog == old(statusLog) && sent == old(sent)
    {
      if cts != Live {
        return false;
      }
      if incoming.Read? && incoming.data != [] {
        bytesReceived := bytesReceived + |incoming.data|;
        return true;
      }
      Disconnect();
      more := false;
    }
  }
}
