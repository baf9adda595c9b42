/**
 * `NetworkConnectionManager`: one client connection, TCP then optionally TLS, with
 * byte counters and status notifications.
 *
 * Sockets, TLS and the clock are the environment.  Each method that waits on the
 * network takes what the network did as a parameter: how the TCP connect race ended,
 * how the TLS handshake ended (the certificate and platform errors the validation
 * callback is shown), whether a write faulted, what a read returned.  Notifications
 * raised through `ConnectionStatusChanged` are appended to `statusLog`; the bytes
 * written to the stream are appended to `sent`.
 */
module NetworkConnectionManager {
  import opened Wrappers
  import opened Text
  import opened Bytes
  import opened Config
  import opened CertificateValidator

  /** How `WhenAny(connect, delay)` followed by `await connect` ended. */
  datatype TcpOutcome = TcpConnected | TcpTimedOut | TcpFailed(message: string)

  /**
   * How `AuthenticateAsClientAsync` ended: the server presented `cert` with the
   * platform's `errors` (the validation callback then decides), or the handshake
   * failed for another reason.
   */
  datatype TlsOutcome = TlsHandshake(cert: Option<Certificate>, errors: SslPolicyErrors) | TlsFailed(message: string)

  /** What one read from the stream returned. */
  datatype ReadOutcome = Read(data: seq<byte>) | ReadFault(message: string)

  datatype StreamKind = RawStream | TlsStream(targetHost: string)

  /** `_cts`: absent, live, or cancelled. */
  datatype CancellationState = NoSource | Live | Cancelled

  const TcpTimeoutMessage := "TCP connection timeout"
  const NotConnectedMessage := "Not connected"
  const PortOutOfRangeMessage := "Specified argument was out of the range of valid values. (Parameter 'port')"
  const CallbackRejectedMessage := "The remote certificate was rejected by the provided RemoteCertificateValidationCallback."
  const KeepAliveFrame: seq<byte> := [0x00]

  // ---------------------------------------------------------------- the security layer

  datatype SecurityLayer = SkipTls | ApplyTls(targetHost: string) | KeepRaw

  /**
   * `EstablishSecurityLayer`'s choice.  "none" never gets TLS, not even on port 443;
   * "tls" and "reality" always do, on any port; on port 443 every other value, null
   * included, does too.  TLS targets `Sni`, falling back to `Address`.  Only another
   * value off port 443 keeps the raw stream.
   */
  function SecurityDecision(config: VlessConfig): (l: SecurityLayer)
    ensures config.security == Some("none") ==> l == SkipTls
    ensures config.security in {Some("tls"), Some("reality")} ==> l.ApplyTls?
    ensures config.port == 443 && config.security != Some("none") ==> l.ApplyTls?
    ensures l.ApplyTls? ==> l.targetHost == (if config.sni.Some? then config.sni.value else config.address)
    ensures l == KeepRaw <==> config.security !in {Some("none"), Some("tls"), Some("reality")} && config.port != 443
  {
    if config.security == Some("none") then SkipTls
    else if config.security == Some("tls") || config.security == Some("reality") || config.port == 443
    then ApplyTls(config.sni.GetOr(config.address))
    else KeepRaw
  }

  /** The exception `EstablishConnection` rethrows, or None when it completes. */
  function ConnectFailure(config: VlessConfig, tcp: TcpOutcome, tls: TlsOutcome, sha256: seq<byte> -> seq<byte>): (r: Option<string>)
    ensures r.None? <==>
      && 0 <= config.port <= 65535 && tcp.TcpConnected?
      && (SecurityDecision(config).ApplyTls? ==> tls.TlsHandshake? && Validate(tls.cert, tls.errors, config, sha256))
    ensures 0 <= config.port <= 65535 && tcp.TcpTimedOut? ==> r == Some(TcpTimeoutMessage)
    ensures (0 <= config.port <= 65535 && tcp.TcpConnected? && SecurityDecision(config).ApplyTls? && tls.TlsHandshake?
             && !Validate(tls.cert, tls.errors, config, sha256)) ==> r == Some(CallbackRejectedMessage)
  {
    if TcpFailure(config, tcp).Some? then TcpFailure(config, tcp) else SecurityFailure(config, tls, sha256)
  }

  /** The exception `EstablishTcpConnection` throws, if any. */
  function TcpFailure(config: VlessConfig, tcp: TcpOutcome): Option<string> {
    if !(0 <= config.port <= 65535) then Some(PortOutOfRangeMessage)
    else match tcp
      case TcpTimedOut => Some(TcpTimeoutMessage)
      case TcpFailed(m) => Some(m)
      case TcpConnected => None
  }

  /** The exception `EstablishSecurityLayer` throws, if any. */
  function SecurityFailure(config: VlessConfig, tls: TlsOutcome, sha256: seq<byte> -> seq<byte>): Option<string> {
    match SecurityDecision(config)
    case ApplyTls(_) =>
      (match tls
       case TlsFailed(m) => Some(m)
       case TlsHandshake(cert, errors) =>
         if Validate(cert, errors, config, sha256) then None else Some(CallbackRejectedMessage))
    case _ => None
  }

  /** The stream a completed connection reads and writes. */
  function StreamAfter(config: VlessConfig): StreamKind {
    match SecurityDecision(config)
    case ApplyTls(host) => TlsStream(host)
    case _ => RawStream
  }

  /** The notifications `EstablishTcpConnection` raises. */
  function TcpTrace(config: VlessConfig, tcp: TcpOutcome): seq<string> {
    ["Connecting to " + config.address + ":" + IntToString(config.port) + "..."]
    + (if TcpFailure(config, tcp).None? then ["TCP connection established"] else [])
  }

  /** The notifications `EstablishSecurityLayer` raises. */
  function SecurityTrace(config: VlessConfig, tls: TlsOutcome, sha256: seq<byte> -> seq<byte>): seq<string> {
    match SecurityDecision(config)
    case SkipTls => ["Skipping TLS (insecure mode)"]
    case KeepRaw => []
    case ApplyTls(_) =>
      ["Establishing TLS layer..."] + (if SecurityFailure(config, tls, sha256).None? then ["TLS handshake completed"] else [])
  }

  /** The notifications one `EstablishConnection` raises after its opening `Disconnect`, in order. */
  function ConnectTrace(config: VlessConfig, tcp: TcpOutcome, tls: TlsOutcome, sha256: seq<byte> -> seq<byte>): seq<string> {
    StepsTrace(config, tcp, tls, sha256) + OutcomeTrace(ConnectFailure(config, tcp, tls, sha256))
  }

  /** The notifications of the connection steps, up to the first exception. */
  function StepsTrace(config: VlessConfig, tcp: TcpOutcome, tls: TlsOutcome, sha256: seq<byte> -> seq<byte>): seq<string> {
    ["Connecting..."] + TcpTrace(config, tcp)
    + (if TcpFailure(config, tcp).None? then SecurityTrace(config, tls, sha256) else [])
  }

  /** The closing notifications: success, or the failure and the `Disconnect` that follows it. */
  function OutcomeTrace(failure: Option<string>): seq<string> {
    match failure
    case None => ["Connected successfully"]
    case Some(m) => ["Connection failed: " + m, "Disconnected"]
  }

  /** A connection attempt ends with "Connected successfully" exactly when it completes, and never says so earlier. */
  lemma ConnectTraceReportsOutcome(config: VlessConfig, tcp: TcpOutcome, tls: TlsOutcome, sha256: seq<byte> -> seq<byte>)
    ensures var t := ConnectTrace(config, tcp, tls, sha256);
      && (t[|t| - 1] == "Connected successfully" <==> ConnectFailure(config, tcp, tls, sha256).None?)
      && (forall i :: 0 <= i < |t| - 1 ==> t[i] != "Connected successfully")
      && (ConnectFailure(config, tcp, tls, sha256).Some? ==>
            t[|t| - 2..] == ["Connection failed: " + ConnectFailure(config, tcp, tls, sha256).value, "Disconnected"])
  {
    var t := ConnectTrace(config, tcp, tls, sha256);
    var head := "Connecting to " + config.address + ":" + IntToString(config.port) + "...";
    assert head[7] == 'i';
    var f := ConnectFailure(config, tcp, tls, sha256);
    if f.Some? {
      assert ("Connection failed: " + f.value)[8] == 'o';
    }
  }

  /**
   * "TLS handshake completed" is announced exactly when TLS was chosen and the whole
   * connection completed, which takes the certificate validator's approval.
   */
  lemma TlsCompletedOnlyWhenValidated(config: VlessConfig, tcp: TcpOutcome, tls: TlsOutcome, sha256: seq<byte> -> seq<byte>)
    ensures "TLS handshake completed" in ConnectTrace(config, tcp, tls, sha256)
      <==> SecurityDecision(config).ApplyTls? && ConnectFailure(config, tcp, tls, sha256).None?
    ensures SecurityDecision(config).ApplyTls? && ConnectFailure(config, tcp, tls, sha256).None? ==>
      tls.TlsHandshake? && Validate(tls.cert, tls.errors, config, sha256)
  {
    var t := ConnectTrace(config, tcp, tls, sha256);
    var head := "Connecting to " + config.address + ":" + IntToString(config.port) + "...";
    assert head[0] == 'C';
    var f := ConnectFailure(config, tcp, tls, sha256);
    if f.Some? {
      assert ("Connection failed: " + f.value)[0] == 'C';
    }
  }

  // ---------------------------------------------------------------- the manager

  class ConnectionManager {
    var hasClient: bool
    var stream: Option<StreamKind>
    var cts: CancellationState
    var bytesReceived: int
    var bytesSent: int
    var isConnected: bool
    /** Every `ConnectionStatusChanged` notification, oldest first. */
    var statusLog: seq<string>
    /** Every byte written to the stream, oldest first. */
    var sent: seq<byte>

    /** Connected implies a client and a stream; `BytesSent` counts exactly the bytes written. */
    predicate Valid()
      reads this
    {
      && (isConnected ==> hasClient && stream.Some?)
      && bytesSent == |sent|
      && bytesReceived >= 0
    }

    constructor()
      ensures Valid() && !isConnected && stream.None? && !hasClient && cts == NoSource
      ensures bytesReceived == 0 && bytesSent == 0 && statusLog == [] && sent == []
    {
      hasClient, stream, cts := false, None, NoSource;
      bytesReceived, bytesSent, isConnected := 0, 0, false;
      statusLog, sent := [], [];
    }

    /** `Disconnect`: cancel, drop stream and client, notify; the counters are kept. */
    method Disconnect()
      requires Valid()
      modifies this
      ensures Valid()
      ensures !isConnected && stream.None? && !hasClient
      ensures cts == (if old(cts) == NoSource then NoSource else Cancelled)
      ensures statusLog == old(statusLog) + ["Disconnected"]
      ensures bytesReceived == old(bytesReceived) && bytesSent == old(bytesSent) && sent == old(sent)
    {
      if cts != NoSource {
        cts := Cancelled;
      }
      isConnected := false;
      statusLog := statusLog + ["Disconnected"];
      stream := None;
      hasClient := false;
    }

    /** `EstablishConnection`; a thrown exception is returned as `Fail(message)`. */
    method EstablishConnection(config: VlessConfig, tcp: TcpOutcome, tls: TlsOutcome, sha256: seq<byte> -> seq<byte>)
      returns (r: Outcome<string>)
      requires Valid()
      modifies this
      ensures Valid()
      ensures r.Pass? <==> ConnectFailure(config, tcp, tls, sha256).None?
      ensures r.Fail? ==> r.error == ConnectFailure(config, tcp, tls, sha256).value
      ensures statusLog == old(statusLog) + (if old(isConnected) then ["Disconnected"] else [])
                           + ConnectTrace(config, tcp, tls, sha256)
      ensures r.Pass? ==> isConnected && hasClient && stream == Some(StreamAfter(config)) && cts == Live
      ensures r.Fail? ==> !isConnected && !hasClient && stream.None? && cts == Cancelled
      ensures bytesReceived == old(bytesReceived) && bytesSent == old(bytesSent) && sent == old(sent)
    {
      if isConnected {
        Disconnect();
      }
      cts := Live;
      r := TryConnect(config, tcp, tls, sha256);
    }

    /** The `try` block of `EstablishConnection` and its `catch`, from a fresh token source. */
    method TryConnect(config: VlessConfig, tcp: TcpOutcome, tls: TlsOutcome, sha256: seq<byte> -> seq<byte>)
      returns (r: Outcome<string>)
      requires Valid() && !isConnected && cts == Live
      modifies this
      ensures Valid()
      ensures r.Pass? <==> ConnectFailure(config, tcp, tls, sha256).None?
      ensures r.Fail? ==> r.error == ConnectFailure(config, tcp, tls, sha256).value
      ensures statusLog == old(statusLog) + ConnectTrace(config, tcp, tls, sha256)
      ensures r.Pass? ==> isConnected && hasClient && stream == Some(StreamAfter(config)) && cts == Live
      ensures r.Fail? ==> !isConnected && !hasClient && stream.None? && cts == Cancelled
      ensures bytesReceived == old(bytesReceived) && bytesSent == old(bytesSent) && sent == old(sent)
    {
      var failure := EstablishSteps(config, tcp, tls, sha256);
      ghost var steps := StepsTrace(config, tcp, tls, sha256);
      assert (old(statusLog) + steps) + OutcomeTrace(failure) == old(statusLog) + ConnectTrace(config, tcp, tls, sha256);
      if failure.Some? {
        ReportFailure(failure.value);
        return Fail(failure.value);
      }
      isConnected := true;
      statusLog := statusLog + OutcomeTrace(None);
      r := Pass;
    }

    /** The `catch` of `EstablishConnection`: report the failure, then `Disconnect`. */
    method ReportFailure(message: string)
      requires Valid() && cts == Live
      modifies this
      ensures Valid() && !isConnected && !hasClient && stream.None? && cts == Cancelled
      ensures statusLog == old(statusLog) + OutcomeTrace(Some(message))
      ensures bytesReceived == old(bytesReceived) && bytesSent == old(bytesSent) && sent == old(sent)
    {
      statusLog := statusLog + ["Connection failed: " + message];
      Disconnect();
    }

    /** `EstablishTcpConnection` then `EstablishSecurityLayer`, stopping at the first exception. */
    method EstablishSteps(config: VlessConfig, tcp: TcpOutcome, tls: TlsOutcome, sha256: seq<byte> -> seq<byte>)
      returns (failure: Option<string>)
      requires Valid() && !isConnected
      modifies this
      ensures Valid() && !isConnected && cts == old(cts)
      ensures failure == ConnectFailure(config, tcp, tls, sha256)
      ensures failure.None? ==> hasClient && stream == Some(StreamAfter(config))
      ensures statusLog == old(statusLog) + StepsTrace(config, tcp, tls, sha256)
      ensures bytesReceived == old(bytesReceived) && bytesSent == old(bytesSent) && sent == old(sent)
    {
      statusLog := statusLog + ["Connecting..."];
      failure := EstablishTcpConnection(config, tcp);
      if failure.Some? {
        return;
      }
      failure := EstablishSecurityLayer(config, tls, sha256);
    }

    /** `EstablishTcpConnection`: a client, the connect race, then the raw stream. */
    method EstablishTcpConnection(config: VlessConfig, tcp: TcpOutcome) returns (failure: Option<string>)
      requires Valid() && !isConnected
      modifies this
      ensures Valid() && !isConnected && cts == old(cts) && hasClient
      ensures failure == TcpFailure(config, tcp)
      ensures failure.None? ==> stream == Some(RawStream)
      ensures statusLog == old(statusLog) + TcpTrace(config, tcp)
      ensures bytesReceived == old(bytesReceived) && bytesSent == old(bytesSent) && sent == old(sent)
    {
      hasClient := true;
      statusLog := statusLog + ["Connecting to " + config.address + ":" + IntToString(config.port) + "..."];
      if !(0 <= config.port <= 65535) {
        return Some(PortOutOfRangeMessage);
      }
      match tcp {
        case TcpTimedOut => return Some(TcpTimeoutMessage);
        case TcpFailed(m) => return Some(m);
        case TcpConnected =>
      }
      stream := Some(RawStream);
      statusLog := statusLog + ["TCP connection established"];
      failure := None;
    }

    /** `EstablishSecurityLayer`: skip, keep the raw stream, or wrap it in TLS. */
    method EstablishSecurityLayer(config: VlessConfig, tls: TlsOutcome, sha256: seq<byte> -> seq<byte>)
      returns (failure: Option<string>)
      requires Valid() && !isConnected && hasClient && stream == Some(RawStream)
      modifies this
      ensures Valid() && !isConnected && cts == old(cts) && hasClient
      ensures failure == SecurityFailure(config, tls, sha256)
      ensures failure.None? ==> stream == Some(StreamAfter(config))
      ensures statusLog == old(statusLog) + SecurityTrace(config, tls, sha256)
      ensures bytesReceived == old(bytesReceived) && bytesSent == old(bytesSent) && sent == old(sent)
    {
      match SecurityDecision(config) {
        case SkipTls =>
          statusLog := statusLog + ["Skipping TLS (insecure mode)"];
        case KeepRaw =>
        case ApplyTls(host) =>
          statusLog := statusLog + ["Establishing TLS layer..."];
          match tls {
            case TlsFailed(m) => return Some(m);
            case TlsHandshake(cert, errors) =>
              if !Validate(cert, errors, config, sha256) {
                return Some(CallbackRejectedMessage);
              }
          }
          stream := Some(TlsStream(host));
          statusLog := statusLog + ["TLS handshake completed"];
      }
      failure := None;
    }

    /** `SendAsync`: write `data` (the caller's `buffer[offset..offset + count]`) and count it. */
    method SendAsync(data: seq<byte>, writeFault: Option<string>) returns (r: Result<int, string>)
      requires Valid()
      modifies this
      ensures Valid()
      ensures !old(isConnected) || old(stream).None? ==> r == Failure(NotConnectedMessage)
      ensures old(isConnected) && old(stream).Some? && writeFault.Some? ==> r == Failure(writeFault.value)
      ensures r.Success? <==> old(isConnected) && old(stream).Some? && writeFault.None?
      ensures r.Success? ==> r.value == |data| && sent == old(sent) + data && bytesSent == old(bytesSent) + |data|
      ensures r.Failure? ==> sent == old(sent) && bytesSent == old(bytesSent)
      ensures isConnected == old(isConnected) && stream == old(stream) && hasClient == old(hasClient)
      ensures cts == old(cts) && bytesReceived == old(bytesReceived) && statusLog == old(statusLog)
    {
      if !isConnected || stream.None? {
        return Failure(NotConnectedMessage);
      }
      if writeFault.Some? {
        return Failure(writeFault.value);
      }
      sent := sent + data;
      bytesSent := bytesSent + |data|;
      r := Success(|data|);
    }

    /** `ReceiveAsync`: read up to `count` bytes; a zero-byte read means the peer closed, and disconnects. */
    method ReceiveAsync(count: nat, incoming: ReadOutcome) returns (r: Result<seq<byte>, string>)
      requires Valid()
      requires incoming.Read? ==> |incoming.data| <= count
      modifies this
      ensures Valid()
      ensures !old(isConnected) || old(stream).None? ==> r == Failure(NotConnectedMessage)
      ensures r.Success? <==> old(isConnected) && old(stream).Some? && incoming.Read?
      ensures r.Success? ==> r.value == incoming.data && bytesReceived == old(bytesReceived) + |incoming.data|
      ensures r.Failure? ==> bytesReceived == old(bytesReceived)
      ensures r.Success? && r.value == [] ==>
        !isConnected && stream.None? && !hasClient && statusLog == old(statusLog) + ["Disconnected"]
      ensures !(r.Success? && r.value == []) ==>
        isConnected == old(isConnected) && stream == old(stream) && hasClient == old(hasClient)
        && statusLog == old(statusLog) && cts == old(cts)
      ensures sent == old(sent) && bytesSent == old(bytesSent)
    {
      if !isConnected || stream.None? {
        return Failure(NotConnectedMessage);
      }
      match incoming {
        case ReadFault(m) => return Failure(m);
        case Read(data) =>
          if |data| > 0 {
            bytesReceived := bytesReceived + |data|;
          } else {
            Disconnect();
          }
          r := Success(data);
      }
    }

    /** One pass of `SendKeepAlives` after its delay: send the one-byte frame when connected. Returns whether the loop goes on. */
    method KeepAliveTick(writeFault: Option<string>) returns (more: bool)
      requires Valid()
      modifies this
      ensures Valid()
      ensures old(cts) == Cancelled ==> !more && sent == old(sent)
      ensures old(cts) != Cancelled && old(isConnected) && writeFault.None? ==> more && sent == old(sent) + KeepAliveFrame
      ensures old(cts) != Cancelled && old(isConnected) && writeFault.Some? ==> !more && sent == old(sent)
      ensures old(cts) != Cancelled && !old(isConnected) ==> more && sent == old(sent)
      ensures isConnected == old(isConnected) && stream == old(stream) && statusLog == old(statusLog)
      ensures hasClient == old(hasClient) && cts == old(cts) && bytesReceived == old(bytesReceived)
    {
      if cts == Cancelled {
        return false;
      }
      if isConnected {
        var r := SendAsync(KeepAliveFrame, writeFault);
        if r.Failure? {
          return false;
        }
      }
      more := true;
    }

    /**
     * `MonitorConnection`.  Its probe is a read of zero bytes, and a zero-byte read
     * returns 0 (or throws), so the loop ends on its first pass and the monitor then
     * tears the connection down.
     */
    method MonitorConnection()
      requires Valid()
      modifies this
      ensures Valid()
      ensures !isConnected && stream.None? && !hasClient
      ensures statusLog == old(statusLog) + ["Disconnected"]
      ensures bytesReceived == old(bytesReceived) && bytesSent == old(bytesSent) && sent == old(sent)
    {
      Disconnect();
    }
  }
}
