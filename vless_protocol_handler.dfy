/**
 * `VlessProtocolHandler`: the VLESS request header the client writes before any
 * payload, and the one-byte acknowledgement it expects back.
 *
 * Layout, in the order `PerformHandshake` writes it:
 *   version 0x01 | 16 UUID bytes | options | command 0x01 | address block | port (2 bytes)
 * where the address block is 0x01 + 4 bytes (IPv4), 0x02 + 16 bytes (IPv6) or
 * 0x03 + length + UTF-8 bytes (domain name).
 *
 * `IPAddress.TryParse` is an abstract classifier passed in as `tryParseIp`.
 */
module VlessProtocolHandler {
  import opened Wrappers
  import opened Text
  import opened Bytes
  import opened Guid
  import opened Config
  import opened NetworkConnectionManager

  const Version: byte := 0x01
  const CmdTcp: byte := 0x01
  const CmdUdp: byte := 0x02
  const OptionChunk: byte := 0x01
  const OptionVision: byte := 0x02
  const VisionFlow := "xtls-rprx-vision"

  type Ipv4Bytes = s: seq<byte> | |s| == 4 witness [0, 0, 0, 0]
  type Ipv6Bytes = s: seq<byte> | |s| == 16 witness seq(16, i => 0)

  /** What `IPAddress.TryParse` yields: an address of one of the two families. */
  datatype IpAddress = V4(v4: Ipv4Bytes) | V6(v6: Ipv6Bytes)

  datatype AddressField = Ipv4(ip4: seq<byte>) | Ipv6(ip6: seq<byte>) | DomainName(name: seq<byte>)

  /** The fields of one request header. */
  datatype Request = Request(uuid: seq<byte>, options: byte, command: byte, address: AddressField, port: nat)

  predicate WellFormedAddress(a: AddressField) {
    match a
    case Ipv4(b) => |b| == 4
    case Ipv6(b) => |b| == 16
    case DomainName(n) => |n| <= 255
  }

  predicate WellFormed(req: Request) {
    |req.uuid| == 16 && WellFormedAddress(req.address) && req.port < 0x1_0000
  }

  // ---------------------------------------------------------------- wire layout

  function AddressBlock(a: AddressField): seq<byte>
    requires WellFormedAddress(a)
  {
    match a
    case Ipv4(b) => [0x01] + b
    case Ipv6(b) => [0x02] + b
    case DomainName(n) => [0x03, |n|] + n
  }

  /**
   * `(ushort)IPAddress.HostToNetworkOrder((short)port)` written by a little-endian
   * `BinaryWriter`: the low 16 bits of the port, high byte first.
   */
  function PortBytes(port: int): (r: seq<byte>)
    ensures |r| == 2
  {
    var low16 := port % 0x1_0000;
    [low16 / 256, low16 % 256]
  }

  function Serialize(req: Request): seq<byte>
    requires WellFormed(req)
  {
    [Version] + req.uuid + [req.options, req.command] + AddressBlock(req.address) + PortBytes(req.port)
  }

  /** A server's reading of a request header: the partner of `Serialize`. */
  function Deserialize(bs: seq<byte>): (r: Option<Request>)
    ensures r.Some? ==> WellFormed(r.value)
  {
    if |bs| < 22 || bs[0] != Version then None
    else
      var tail := bs[20..];
      var address :=
        if bs[19] == 0x01 && |tail| == 4 + 2 then Some(Ipv4(tail[..4]))
        else if bs[19] == 0x02 && |tail| == 16 + 2 then Some(Ipv6(tail[..16]))
        else if bs[19] == 0x03 && |tail| == 1 + bs[20] as int + 2 then Some(DomainName(tail[1..1 + bs[20] as int]))
        else None;
      if address.None? then None
      else Some(Request(bs[1..17], bs[17], bs[18], address.value, 256 * (bs[|bs| - 2] as int) + bs[|bs| - 1] as int))
  }

  lemma DeserializeSerialize(req: Request)
    requires WellFormed(req)
    ensures Deserialize(Serialize(req)) == Some(req)
  {
    var bs := Serialize(req);
    var block := AddressBlock(req.address);
    assert bs == [Version] + req.uuid + [req.options, req.command] + block + PortBytes(req.port);
    assert bs[1..17] == req.uuid;
    assert bs[20..] == block[1..] + PortBytes(req.port);
    assert bs[|bs| - 2..] == PortBytes(req.port);
    match req.address
    case Ipv4(b) => assert bs[20..][..4] == b;
    case Ipv6(b) => assert bs[20..][..16] == b;
    case DomainName(n) => assert bs[20..][1..1 + |n|] == n;
  }

  lemma SerializeDeserialize(bs: seq<byte>)
    requires Deserialize(bs).Some?
    ensures Serialize(Deserialize(bs).value) == bs
  {
    var req := Deserialize(bs).value;
    DeserializeFields(bs);
    SerializeLayout(req);
    var out := Serialize(req);
    assert |out| == |bs|;
    assert out == out[..19] + out[19..|out| - 2] + out[|out| - 2..];
    assert bs == bs[..19] + bs[19..|bs| - 2] + bs[|bs| - 2..];
    assert out[..19] == bs[..19];
  }

  /** Where the decoder found each field. */
  lemma DeserializeFields(bs: seq<byte>)
    requires Deserialize(bs).Some?
    ensures var req := Deserialize(bs).value;
      && |bs| >= 22 && bs[0] == Version && bs[1..17] == req.uuid && bs[17] == req.options && bs[18] == req.command
      && bs[19..|bs| - 2] == AddressBlock(req.address)
      && bs[|bs| - 2..] == PortBytes(req.port)
  {
    var req := Deserialize(bs).value;
    var tail := bs[20..];
    PortBytesOf(bs[|bs| - 2], bs[|bs| - 1]);
    assert bs[|bs| - 2..] == [bs[|bs| - 2], bs[|bs| - 1]];
    assert bs[19..|bs| - 2] == [bs[19]] + tail[..|tail| - 2];
    match req.address
    case Ipv4(b) => assert bs[19] == 0x01 && |tail| == 6 && b == tail[..4];
    case Ipv6(b) => assert bs[19] == 0x02 && |tail| == 18 && b == tail[..16];
    case DomainName(n) =>
      assert bs[19] == 0x03 && n == tail[1..1 + bs[20] as int];
      assert tail[..|tail| - 2] == [tail[0]] + n;
  }

  lemma PortBytesOf(high: byte, low: byte)
    ensures PortBytes(256 * (high as int) + low as int) == [high, low]
  {
    var port := 256 * (high as int) + low as int;
    assert 0 <= port < 0x1_0000;
    assert port % 0x1_0000 == port;
  }

  // ---------------------------------------------------------------- encoding a config

  datatype EncodeError = InvalidUuid | DomainTooLong

  function EncodeErrorMessage(e: EncodeError): string {
    match e
    case InvalidUuid => "Invalid UUID format"
    case DomainTooLong => "Domain name too long"
  }

  /**
   * The option bits: the options byte holds the vision bit exactly for the
   * `xtls-rprx-vision` flow and the chunk bit exactly for chunk streaming.
   */
  function Options(config: VlessConfig): (o: byte)
    ensures o < 4
    ensures (o / 2 == 1) <==> config.flow == Some(VisionFlow)
    ensures (o % 2 == 1) <==> config.enableChunkStreaming
  {
    (if config.flow == Some(VisionFlow) then OptionVision else 0)
    + (if config.enableChunkStreaming then OptionChunk else 0)
  }

  /** The address block's contents: the parsed IP, or the UTF-8 name when it fits a length byte. */
  function Address(config: VlessConfig, tryParseIp: string -> Option<IpAddress>): (r: Result<AddressField, EncodeError>)
    ensures r.Success? ==> WellFormedAddress(r.value)
    ensures r.Failure? <==> tryParseIp(config.address).None? && |Utf8Encode(config.address)| > 255
    ensures r.Failure? ==> r.error == DomainTooLong
    ensures var ip := tryParseIp(config.address);
      && (ip.Some? && ip.value.V4? <==> r.Success? && r.value.Ipv4?)
      && (ip.Some? && ip.value.V4? ==> r.value.ip4 == ip.value.v4)
      && (ip.Some? && ip.value.V6? <==> r.Success? && r.value.Ipv6?)
      && (ip.Some? && ip.value.V6? ==> r.value.ip6 == ip.value.v6)
    ensures r.Success? && r.value.DomainName? ==> r.value.name == Utf8Encode(config.address)
  {
    match tryParseIp(config.address)
    case Some(V4(b)) => Success(Ipv4(b))
    case Some(V6(b)) => Success(Ipv6(b))
    case None =>
      var domain := Utf8Encode(config.address);
      if |domain| > 255 then Failure(DomainTooLong) else Success(DomainName(domain))
  }

  /** The header `PerformHandshake` builds in its memory stream before sending anything. */
  function EncodeRequest(config: VlessConfig, tryParseIp: string -> Option<IpAddress>): (r: Result<seq<byte>, EncodeError>)
    ensures r == Failure(InvalidUuid) <==> TryParseExactD(config.id).None?
    ensures r == Failure(DomainTooLong) <==>
      TryParseExactD(config.id).Some? && tryParseIp(config.address).None? && |Utf8Encode(config.address)| > 255
  {
    match TryParseExactD(config.id)
    case None => Failure(InvalidUuid)
    case Some(uuid) =>
      match Address(config, tryParseIp)
      case Failure(e) => Failure(e)
      case Success(address) =>
        Success(Serialize(Request(uuid, Options(config), CmdTcp, address, config.port % 0x1_0000)))
  }

  /** Where each field of a header sits. */
  lemma SerializeLayout(req: Request)
    requires WellFormed(req)
    ensures var bs := Serialize(req);
      && |bs| == 19 + |AddressBlock(req.address)| + 2
      && bs[0] == Version && bs[1..17] == req.uuid && bs[17] == req.options && bs[18] == req.command
      && bs[19..|bs| - 2] == AddressBlock(req.address)
      && bs[|bs| - 2..] == PortBytes(req.port)
  {
    var bs := Serialize(req);
    var block := AddressBlock(req.address);
    assert bs == [Version] + req.uuid + [req.options, req.command] + block + PortBytes(req.port);
    assert bs[1..17] == req.uuid;
    assert bs[19..|bs| - 2] == block;
    assert bs[|bs| - 2..] == PortBytes(req.port);
  }

  /** The request `EncodeRequest` serialises when it succeeds. */
  function RequestOf(config: VlessConfig, tryParseIp: string -> Option<IpAddress>): Request
    requires EncodeRequest(config, tryParseIp).Success?
  {
    Request(TryParseExactD(config.id).value, Options(config), CmdTcp,
            Address(config, tryParseIp).value, config.port % 0x1_0000)
  }

  lemma EncodeRequestIsSerialize(config: VlessConfig, tryParseIp: string -> Option<IpAddress>)
    requires EncodeRequest(config, tryParseIp).Success?
    ensures WellFormed(RequestOf(config, tryParseIp))
    ensures EncodeRequest(config, tryParseIp).value == Serialize(RequestOf(config, tryParseIp))
  {
  }

  /** Every header starts with the version, the identity in `Guid.ToByteArray` order, the options and TCP. */
  lemma EncodeRequestHeader(config: VlessConfig, tryParseIp: string -> Option<IpAddress>)
    requires EncodeRequest(config, tryParseIp).Success?
    ensures var bs := EncodeRequest(config, tryParseIp).value;
      && |bs| >= 22 && bs[0] == Version && bs[18] == CmdTcp && bs[18] != CmdUdp
      && bs[1..17] == ByteArrayOf(Trim(config.id))
      && bs[17] == Options(config)
      && bs[|bs| - 2..] == PortBytes(config.port)
  {
    var r := RequestOf(config, tryParseIp);
    EncodeRequestIsSerialize(config, tryParseIp);
    SerializeLayout(r);
    PortBytesMod(config.port);
    assert r.uuid == ByteArrayOf(Trim(config.id));
  }

  lemma PortBytesMod(port: int)
    ensures PortBytes(port % 0x1_0000) == PortBytes(port)
  {
    var low16 := port % 0x1_0000;
    assert low16 % 0x1_0000 == low16;
  }

  /** The address block is the IP's family tag and bytes, or the UTF-8 name after its length. */
  lemma EncodeRequestAddress(config: VlessConfig, tryParseIp: string -> Option<IpAddress>)
    requires EncodeRequest(config, tryParseIp).Success?
    ensures var bs := EncodeRequest(config, tryParseIp).value;
      match tryParseIp(config.address)
      case Some(V4(b)) => |bs| == 26 && bs[19] == 0x01 && bs[20..24] == b
      case Some(V6(b)) => |bs| == 38 && bs[19] == 0x02 && bs[20..36] == b
      case None =>
        var n := Utf8Encode(config.address);
        |bs| == 23 + |n| && bs[19] == 0x03 && bs[20] == |n| && bs[21..21 + |n|] == n
  {
    var r := RequestOf(config, tryParseIp);
    EncodeRequestIsSerialize(config, tryParseIp);
    SerializeAddress(r);
    match tryParseIp(config.address)
    case Some(V4(b)) => assert r.address == Ipv4(b);
    case Some(V6(b)) => assert r.address == Ipv6(b);
    case None => assert r.address == DomainName(Utf8Encode(config.address));
  }

  /** The address block of a serialised header, by address family. */
  lemma SerializeAddress(req: Request)
    requires WellFormed(req)
    ensures var bs := Serialize(req);
      match req.address
      case Ipv4(b) => |bs| == 26 && bs[19] == 0x01 && bs[20..24] == b
      case Ipv6(b) => |bs| == 38 && bs[19] == 0x02 && bs[20..36] == b
      case DomainName(n) => |bs| == 23 + |n| && bs[19] == 0x03 && bs[20] == |n| && bs[21..21 + |n|] == n
  {
    SerializeLayout(req);
    var bs := Serialize(req);
    var block := AddressBlock(req.address);
    match req.address
    case Ipv4(b) => assert bs[20..24] == block[1..];
    case Ipv6(b) => assert bs[20..36] == block[1..];
    case DomainName(n) => assert bs[21..21 + |n|] == block[2..];
  }

  /** A server reading the header recovers the identity, the options, TCP, the address and the port mod 2^16. */
  lemma EncodeRequestDecodes(config: VlessConfig, tryParseIp: string -> Option<IpAddress>)
    requires EncodeRequest(config, tryParseIp).Success?
    ensures Deserialize(EncodeRequest(config, tryParseIp).value)
         == Some(Request(TryParseExactD(config.id).value, Options(config), CmdTcp,
                         Address(config, tryParseIp).value, config.port % 0x1_0000))
  {
    EncodeRequestIsSerialize(config, tryParseIp);
    DeserializeSerialize(RequestOf(config, tryParseIp));
  }

  /** The two port bytes read big-endian give back the port modulo 2^16, negative ports included. */
  lemma PortBytesBigEndian(port: int)
    ensures 256 * (PortBytes(port)[0] as int) + PortBytes(port)[1] as int == port % 0x1_0000
  {
  }

  /** A name of exactly 255 UTF-8 bytes is encoded; one byte more is refused, never truncated. */
  lemma DomainLengthBoundary(config: VlessConfig, tryParseIp: string -> Option<IpAddress>)
    requires TryParseExactD(config.id).Some? && tryParseIp(config.address).None?
    ensures |Utf8Encode(config.address)| <= 255 ==> EncodeRequest(config, tryParseIp).Success?
    ensures |Utf8Encode(config.address)| == 256 ==> EncodeRequest(config, tryParseIp) == Failure(DomainTooLong)
  {
  }

  // ---------------------------------------------------------------- acknowledgement

  const ClosedImmediately := "Server closed connection immediately"
  const RejectedPrefix := "Server rejected handshake (code: 0x"

  function RejectedMessage(code: byte): string {
    RejectedPrefix + [UpperHexDigit(code / 16), UpperHexDigit(code % 16)] + ")"
  }

  /** The check on the one-byte reply: nothing read, or a non-zero status, is a failure. */
  function CheckAck(bytesRead: nat, response: byte): (r: Outcome<string>)
    ensures r.Pass? <==> bytesRead > 0 && response == 0
  {
    if bytesRead == 0 then Fail(ClosedImmediately)
    else if response != 0x00 then Fail(RejectedMessage(response))
    else Pass
  }

  /** The rejection message carries the server's status byte in hex, recoverable from the text. */
  lemma RejectedMessageCarriesCode(code: byte)
    requires code != 0
    ensures CheckAck(1, code) == Fail(RejectedMessage(code))
    ensures var m := RejectedMessage(code);
      |m| == 38 && AllHex(m[35..37]) && HexPairs(m[35..37]) == [code]
  {
    var m := RejectedMessage(code);
    assert m[35..37] == [UpperHexDigit(code / 16), UpperHexDigit(code % 16)];
  }

  // ---------------------------------------------------------------- the handshake

  /**
   * `PerformHandshake`: encode the request, send it in one `SendAsync`, read one byte
   * and check it.  `writeFault` is what the write did and `incoming` what the one-byte
   * read returned; an exception from either call is passed on as the failure.
   */
  method PerformHandshake(cm: ConnectionManager, config: VlessConfig, tryParseIp: string -> Option<IpAddress>,
                          writeFault: Option<string>, incoming: ReadOutcome) returns (r: Outcome<string>)
    requires cm.Valid()
    requires incoming.Read? ==> |incoming.data| <= 1
    modifies cm
    ensures cm.Valid()
    ensures EncodeRequest(config, tryParseIp).Failure? ==>
      r == Fail(EncodeErrorMessage(EncodeRequest(config, tryParseIp).error)) && cm.sent == old(cm.sent)
    ensures r.Pass? <==>
      && EncodeRequest(config, tryParseIp).Success? && old(cm.isConnected) && old(cm.stream).Some?
      && writeFault.None? && incoming == Read([0])
    ensures r.Pass? ==> cm.sent == old(cm.sent) + EncodeRequest(config, tryParseIp).value
    ensures r.Pass? ==>
      && cm.isConnected && cm.stream == old(cm.stream) && cm.statusLog == old(cm.statusLog)
      && cm.bytesReceived == old(cm.bytesReceived) + 1
    ensures writeFault.Some? || !old(cm.isConnected) || old(cm.stream).None? ==> cm.sent == old(cm.sent)
    ensures EncodeRequest(config, tryParseIp).Failure? || !old(cm.isConnected) || old(cm.stream).None? || writeFault.Some? ==>
      && cm.isConnected == old(cm.isConnected) && cm.stream == old(cm.stream) && cm.hasClient == old(cm.hasClient)
      && cm.cts == old(cm.cts) && cm.statusLog == old(cm.statusLog)
      && cm.bytesReceived == old(cm.bytesReceived) && cm.bytesSent == old(cm.bytesSent)
    ensures EncodeRequest(config, tryParseIp).Success? && old(cm.isConnected) && old(cm.stream).Some? && writeFault.None? ==>
      && (incoming.ReadFault? ==>
            && cm.isConnected && cm.stream == old(cm.stream) && cm.hasClient == old(cm.hasClient)
            && cm.cts == old(cm.cts) && cm.statusLog == old(cm.statusLog) && cm.bytesReceived == old(cm.bytesReceived))
      && (incoming.Read? && incoming.data != [] ==>
            && cm.isConnected && cm.stream == old(cm.stream) && cm.hasClient == old(cm.hasClient)
            && cm.cts == old(cm.cts) && cm.statusLog == old(cm.statusLog)
            && cm.bytesReceived == old(cm.bytesReceived) + |incoming.data|)
    ensures EncodeRequest(config, tryParseIp).Success? && old(cm.isConnected) && old(cm.stream).Some? && writeFault.None? ==>
      && cm.sent == old(cm.sent) + EncodeRequest(config, tryParseIp).value
      && (incoming == Read([]) ==> r == Fail(ClosedImmediately) && !cm.isConnected)
      && (incoming.Read? && |incoming.data| == 1 && incoming.data[0] != 0 ==> r == Fail(RejectedMessage(incoming.data[0])))
    ensures cm.bytesSent >= old(cm.bytesSent) && cm.bytesReceived >= old(cm.bytesReceived)
  {
    var encoded := EncodeRequest(config, tryParseIp);
    if encoded.Failure? {
      return Fail(EncodeErrorMessage(encoded.error));
    }
    r := Exchange(cm, encoded.value, writeFault, incoming);
  }

  /** Send an encoded header in one write, then read and check the one-byte acknowledgement. */
  method Exchange(cm: ConnectionManager, request: seq<byte>, writeFault: Option<string>, incoming: ReadOutcome)
    returns (r: Outcome<string>)
    requires cm.Valid()
    requires incoming.Read? ==> |incoming.data| <= 1
    modifies cm
    ensures cm.Valid()
    ensures r.Pass? <==> old(cm.isConnected) && old(cm.stream).Some? && writeFault.None? && incoming == Read([0])
    ensures r.Pass? ==>
      && cm.isConnected && cm.stream == old(cm.stream) && cm.statusLog == old(cm.statusLog)
      && cm.bytesReceived == old(cm.bytesReceived) + 1
    ensures writeFault.Some? || !old(cm.isConnected) || old(cm.stream).None? ==> cm.sent == old(cm.sent)
    ensures !old(cm.isConnected) || old(cm.stream).None? || writeFault.Some? ==>
      && cm.isConnected == old(cm.isConnected) && cm.stream == old(cm.stream) && cm.hasClient == old(cm.hasClient)
      && cm.cts == old(cm.cts) && cm.statusLog == old(cm.statusLog)
      && cm.bytesReceived == old(cm.bytesReceived) && cm.bytesSent == old(cm.bytesSent)
    ensures old(cm.isConnected) && old(cm.stream).Some? && writeFault.None? ==>
      && (incoming.ReadFault? ==>
            && cm.isConnected && cm.stream == old(cm.stream) && cm.hasClient == old(cm.hasClient)
            && cm.cts == old(cm.cts) && cm.statusLog == old(cm.statusLog) && cm.bytesReceived == old(cm.bytesReceived))
      && (incoming.Read? && incoming.data != [] ==>
            && cm.isConnected && cm.stream == old(cm.stream) && cm.hasClient == old(cm.hasClient)
            && cm.cts == old(cm.cts) && cm.statusLog == old(cm.statusLog)
            && cm.bytesReceived == old(cm.bytesReceived) + |incoming.data|)
    ensures old(cm.isConnected) && old(cm.stream).Some? && writeFault.None? ==>
      && cm.sent == old(cm.sent) + request
      && (incoming == Read([]) ==> r == Fail(ClosedImmediately) && !cm.isConnected)
      && (incoming.Read? && |incoming.data| == 1 && incoming.data[0] != 0 ==> r == Fail(RejectedMessage(incoming.data[0])))
    ensures cm.bytesSent >= old(cm.bytesSent) && cm.bytesReceived >= old(cm.bytesReceived)
  {
    var written := cm.SendAsync(request, writeFault);
    if written.Failure? {
      return Fail(written.error);
    }
    var received := cm.ReceiveAsync(1, incoming);
    if received.Failure? {
      return Fail(received.error);
    }
    var response: byte := if |received.value| == 1 then received.value[0] else 0;
    assert received.value == incoming.data;
    r := CheckAck(|received.value|, response);
  }
}
