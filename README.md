# vtrace core, modelled in Dafny

vtrace is a VLESS VPN client for .NET MAUI. This project models the parts of it that carry logic, and proves properties of that model:

- the `vless://` link parser (`VlessConfig.Parse`);
- the certificate trust rule and hex decoder used for REALITY pinning (`CertificateValidator`);
- the VLESS request encoder and acknowledgement check (`VlessProtocolHandler.PerformHandshake`);
- the two connection classes with their counters, stream state and status notifications (`NetworkConnectionManager`, `VlessVpnService`);
- the two keyed configuration stores (`InMemoryConfigStorageService`, `JsonFileConfigStorageService`);
- from the page's view model: the `CircularBuffer<T>` behind the speed chart, the status-line overwrite rule, the initial load of the list, and the add and delete commands.

Modules, one per file:

| module | models |
|---|---|
| `Wrappers` | `Option` for C# `null`; `Result`/`Outcome` for "returns or throws" |
| `Text`, `Bytes` | the .NET string and encoding calls the core uses (`Trim`, `Replace`, `ToLowerInvariant` on ASCII, `IsNullOrWhiteSpace`, UTF-8, hex digits) |
| `Guid` | `Guid.TryParseExact(s, "D")` and `Guid.ToByteArray()` |
| `Config` | `VlessConfig` and `VlessConfig.Parse`, with a printer `Format` that `Parse` inverts |
| `CertificateValidator` | `Validate` and `HexStringToByteArray` |
| `VlessProtocolHandler` | the request encoder, a decoder that inverts it, the ack check and `PerformHandshake` |
| `NetworkConnectionManager` | the connection manager class |
| `VlessVpnService` | the VPN service class and its error-message mapping |
| `ConfigStorage`, `JsonConfigStorage` | the two stores |
| `VpnConfigViewModel` | `CircularBuffer<T>`, the status rule, `LoadConfigsAsync`, `AddConfig` and `DeleteConfig` |

How the environment is represented:

- The network is a parameter of each method that waits on it. This covers how the connect race ended, how the TLS handshake ended, whether a write faulted and what a read returned.
- SHA-256 is a function parameter, and so is `IPAddress.TryParse`. RSA public-key extraction is an optional SubjectPublicKeyInfo on the certificate.
- Status notifications are appended to a `statusLog` sequence, and bytes written to a stream to a `sent` sequence.
- The JSON storage file is a ghost value holding the list it contains.

Request lengths follow from the layout in `Handlers/VlessProtocolHandler.cs:22-60`. They are 26 bytes for an IPv4 target, 38 for IPv6, and 23 plus the UTF-8 length for a domain name. The version, UUID, option and command bytes take 19 bytes, the address tag is one more, and the port is two.

## Model

| member | source | states |
|---|---|---|
| Guid.TryParseExactD | Handlers/VlessProtocolHandler.cs:24-25 | parsing succeeds exactly when the trimmed text is a 36-character hyphenated "D" UUID, and then yields 16 bytes |
| Guid.ParseFormatD | Handlers/VlessProtocolHandler.cs:24-26 | printing any 16 bytes in "D" form and parsing the text gives the same bytes back |
| Guid.FormatParsedD | Handlers/VlessProtocolHandler.cs:24-26 | printing a parsed UUID gives the trimmed input in lower case |
| Guid.ByteArrayOf | Handlers/VlessProtocolHandler.cs:26 | `ToByteArray` gives 16 bytes: the RFC 4122 network-order bytes with the first three fields (4, 2 and 2 bytes) each reversed and the last 8 bytes as they are |
| Guid.ByteArrayIsMixedEndian | Handlers/VlessProtocolHandler.cs:26 | the 16 bytes differ from RFC 4122 network order exactly by swapping bytes within the first three fields |
| Config.SplitHostPort | Models/VlessConfig.cs:26-31 | an accepted authority has a non-empty host and a port of -1 (none given) up to 65535 |
| Config.SplitUri | Models/VlessConfig.cs:26-32 | an accepted link has a non-empty host, a port in -1..65535, and a fragment that is empty or starts with '#' |
| Config.Lookup | Models/VlessConfig.cs:35-43 | a query key yields null exactly when no pair carries it |
| Config.Parse | Models/VlessConfig.cs:21-46 | input not starting with "vless://" is exactly the input rejected as an invalid VLESS URL; an accepted config has an id without '@', a non-empty address, a port in -1..65535, a remark without a leading '#', and no chunk streaming |
| Config.FromParts | Models/VlessConfig.cs:27-43 | the id is the user info before its first '@'; address and port are the URI's host and port; the remark is the fragment after its whole leading run of '#'; each of the eight optional fields is the query value under its own key; chunk streaming is off |
| Config.LookupFields | Models/VlessConfig.cs:36-43 | each of the eight query keys reads back exactly the field printed under it |
| Config.LookupFieldPairs | Models/VlessConfig.cs:36-43 | type, security, pbk, fp, sni, sid, spx and flow land in their own fields; `fp` lands in `fingerprint` |
| Config.ParseQueryText | Models/VlessConfig.cs:35 | a printed query string parses back to the same key/value pairs |
| Config.FromPartsFormat | Models/VlessConfig.cs:27-43 | building a config from the parts of its printed link gives the config back |
| Config.ParseFormat | Models/VlessConfig.cs:21-46 | parsing the printed link of any printable config gives the same config |
| CertificateValidator.NormalizePin | Services/CertificateValidator.cs:30-31 | the compared pin holds no ':', '-' or ' ' and no upper-case letter, is no longer than the pin, and a pin without separators is only lower-cased |
| CertificateValidator.HashHexIsLowerHex | Services/CertificateValidator.cs:38-39 | `BitConverter.ToString` with dashes removed and lower-cased is the plain lower-case hex of the hash |
| CertificateValidator.Validate | Services/CertificateValidator.cs:10-62 | a null certificate is rejected. In "reality" mode the result is true iff the fingerprint is non-empty, the key is RSA, and the pin (separators removed, lower-cased) equals the lower-case hex of the key hash. Otherwise it is true iff the errors are exactly None or exactly NameMismatch |
| CertificateValidator.LowerHexIsLower | Services/CertificateValidator.cs:38-44 | the hash hex is already lower case, so the case-insensitive comparison adds nothing |
| CertificateValidator.PinIgnoredOutsideReality | Services/CertificateValidator.cs:53-54 | outside REALITY mode the fingerprint does not affect the decision |
| CertificateValidator.TryParseHexByte | Services/CertificateValidator.cs:87 | two hex digits parse to 16·high + low; two non-hex characters never parse |
| CertificateValidator.DecodeGroups | Services/CertificateValidator.cs:83-89 | decoding succeeds iff every 2-character group parses. Output byte i is group i's value. A failure names the first bad group |
| CertificateValidator.HexDecode | Services/CertificateValidator.cs:76-91 | an odd cleaned length is exactly the odd-length error; on success the output is half the cleaned length |
| CertificateValidator.HexStringToByteArray | Services/CertificateValidator.cs:76-91 | the array-filling loop returns what `HexDecode` specifies |
| CertificateValidator.FirstBadGroupUnique | Services/CertificateValidator.cs:84-88 | the error reports the first group that does not parse |
| CertificateValidator.DecodeGroupsOfLowerHex | Services/CertificateValidator.cs:83-89 | any casing of the lower-case hex of some bytes decodes group by group to those bytes |
| CertificateValidator.HexDecodeLowerHex | Services/CertificateValidator.cs:76-91 | decoding the lower-case hex of a hash gives the hash back |
| CertificateValidator.AcceptedPinDecodesToHash | Services/CertificateValidator.cs:31-44 | a pin accepted in REALITY mode decodes to exactly the SHA-256 of the key |
| VlessProtocolHandler.PortBytes | Handlers/VlessProtocolHandler.cs:60 | the port is two bytes |
| VlessProtocolHandler.Deserialize | Handlers/VlessProtocolHandler.cs:22-60 | whatever the decoder accepts is a well-formed request |
| VlessProtocolHandler.DeserializeSerialize | Handlers/VlessProtocolHandler.cs:22-60 | decoding the bytes of any well-formed request gives the request back |
| VlessProtocolHandler.SerializeDeserialize | Handlers/VlessProtocolHandler.cs:22-60 | every accepted byte string is exactly the encoding of what it decodes to |
| VlessProtocolHandler.Address | Handlers/VlessProtocolHandler.cs:37-58 | an IPv4 or IPv6 literal becomes that address's bytes; any other host becomes its UTF-8 name, refused as too long exactly when it is over 255 bytes |
| VlessProtocolHandler.EncodeRequest | Handlers/VlessProtocolHandler.cs:19-62 | an invalid UUID is exactly the invalid-UUID error; a valid UUID with a non-IP address over 255 UTF-8 bytes is exactly the too-long error |
| VlessProtocolHandler.EncodeRequestHeader | Handlers/VlessProtocolHandler.cs:22-35 | byte 0 is version 0x01, bytes 1-16 are `ToByteArray` of the id, byte 17 the options, and byte 18 TCP 0x01 (never UDP 0x02); the last two are the port |
| VlessProtocolHandler.EncodeRequestAddress | Handlers/VlessProtocolHandler.cs:37-58 | IPv4: tag 0x01, 4 bytes, 26 in all. IPv6: tag 0x02, 16 bytes, 38 in all. Domain: tag 0x03, a length byte equal to the UTF-8 length, the UTF-8 bytes, 23 + n in all |
| VlessProtocolHandler.EncodeRequestDecodes | Handlers/VlessProtocolHandler.cs:19-62 | the encoded request decodes to the config's UUID, options, TCP, address and port mod 65536 |
| VlessProtocolHandler.Options | Handlers/VlessProtocolHandler.cs:28-33 | the option byte is below 4; bit 1 is set iff the flow is "xtls-rprx-vision", bit 0 iff chunk streaming is on |
| VlessProtocolHandler.PortBytesBigEndian | Handlers/VlessProtocolHandler.cs:60 | reading the two port bytes big-endian gives the port mod 65536; there is no range check |
| VlessProtocolHandler.PortBytesMod | Handlers/VlessProtocolHandler.cs:60 | only the port mod 65536 reaches the wire |
| VlessProtocolHandler.DomainLengthBoundary | Handlers/VlessProtocolHandler.cs:53-55 | a 255-byte domain is accepted and a 256-byte one rejected |
| VlessProtocolHandler.CheckAck | Handlers/VlessProtocolHandler.cs:65-72 | the handshake passes iff a byte was read and it is 0x00 |
| VlessProtocolHandler.RejectedMessageCarriesCode | Handlers/VlessProtocolHandler.cs:71-72 | a non-zero status is a rejection whose message carries the status byte as two hex digits |
| VlessProtocolHandler.PerformHandshake | Handlers/VlessProtocolHandler.cs:17-73 | an encode error fails with its message and leaves the manager untouched. Otherwise the whole request goes out in one send before the one-byte read. It passes iff the manager is connected, the write succeeds and the byte read is 0x00; after a pass the manager is still connected over the same stream, with no new status and BytesReceived up by one. "Not connected" and a write fault leave the manager untouched; a read fault leaves everything but the sent bytes; a rejection only counts the byte read. A zero-byte read fails as "closed immediately" and disconnects |
| VlessProtocolHandler.Exchange | Handlers/VlessProtocolHandler.cs:62-72 | the send-then-read half of the handshake, with the same pass condition, the same state after a pass, the manager untouched on "Not connected" or a write fault, and only the sent bytes changed on a read fault |
| NetworkConnectionManager.SecurityDecision | Services/NetworkConnectionManager.cs:84-110 | "none" never gets TLS, even on port 443; "tls" and "reality" always do; on port 443 every other value, null included, does too; TLS targets Sni, falling back to Address; only another value off port 443 keeps the raw stream |
| NetworkConnectionManager.ConnectFailure | Services/NetworkConnectionManager.cs:34-110 | connecting completes iff the port is valid, TCP connects, and, when TLS is applied, the handshake reaches the validator and it accepts. A TCP timeout fails as "TCP connection timeout"; a validator rejection fails as the callback rejection |
| NetworkConnectionManager.ConnectTraceReportsOutcome | Services/NetworkConnectionManager.cs:34-56 | "Connected successfully" is the last status exactly when the connection completes, and never appears earlier; a failure ends with "Connection failed: …" then "Disconnected" |
| NetworkConnectionManager.TlsCompletedOnlyWhenValidated | Services/NetworkConnectionManager.cs:90-109 | "TLS handshake completed" is announced iff TLS was chosen and the connection completed, and then the validator accepted the certificate |
| NetworkConnectionManager.ConnectionManager.constructor | Services/NetworkConnectionManager.cs:14-20 | a new manager is disconnected, has no stream, client or token source, and has zero counters |
| NetworkConnectionManager.ConnectionManager.Disconnect | Services/NetworkConnectionManager.cs:149-164 | always ends not connected with no stream or client, cancels the token source, emits "Disconnected" on every call, and leaves the counters alone |
| NetworkConnectionManager.ConnectionManager.EstablishConnection | Services/NetworkConnectionManager.cs:34-56 | a connected manager first disconnects. On success it is connected over the chosen stream after "Connected successfully". On failure it is disconnected and rethrows the failure. The counters are never reset |
| NetworkConnectionManager.ConnectionManager.TryConnect | Services/NetworkConnectionManager.cs:41-55 | from a fresh token source, the attempt emits the whole connect trace; it ends connected over the chosen stream exactly when no step failed, and otherwise disconnected with the step's failure rethrown |
| NetworkConnectionManager.ConnectionManager.ReportFailure | Services/NetworkConnectionManager.cs:50-55 | a failure is reported as "Connection failed: " and its message, followed by the "Disconnected" of the disconnect, which leaves no client, stream or connection and cancels the token source |
| NetworkConnectionManager.ConnectionManager.EstablishSteps | Services/NetworkConnectionManager.cs:41-45 | the TCP step and then, only if it succeeded, the security step; the statuses are "Connecting..." followed by those of the steps run, and stream and client are set on success |
| NetworkConnectionManager.ConnectionManager.EstablishTcpConnection | Services/NetworkConnectionManager.cs:58-80 | creates the client and announces the target; a port out of range, a timeout or a connect failure is the step's exception; otherwise the raw stream is set and "TCP connection established" announced |
| NetworkConnectionManager.ConnectionManager.EstablishSecurityLayer | Services/NetworkConnectionManager.cs:82-111 | "none" only announces the skip; TLS is attempted for "tls", "reality" or port 443, fails on a handshake error or a validator rejection, and otherwise replaces the stream by a TLS stream for Sni ?? Address and announces completion; anything else keeps the raw stream silently |
| NetworkConnectionManager.ConnectionManager.SendAsync | Services/NetworkConnectionManager.cs:113-126 | not connected or no stream fails with "Not connected". Otherwise a successful write returns the count, appends the bytes and adds exactly the count to BytesSent |
| NetworkConnectionManager.ConnectionManager.ReceiveAsync | Services/NetworkConnectionManager.cs:128-147 | same not-connected error. A positive read adds exactly its length to BytesReceived. A zero-byte read leaves the counter and disconnects |
| NetworkConnectionManager.ConnectionManager.KeepAliveTick | Services/NetworkConnectionManager.cs:188-203 | after cancellation the loop stops. When connected, it sends the single byte 0x00 through SendAsync and stops if the write fails. When not connected, it sends nothing and continues. Connection, stream, client, token source, statuses and BytesReceived never change |
| NetworkConnectionManager.ConnectionManager.MonitorConnection | Services/NetworkConnectionManager.cs:172-186 | the monitor's zero-length probe read returns 0, so the monitor ends and disconnects |
| VlessVpnService.ErrorMessage | Services/VlessVpnService.cs:67-78 | the timeout and the three named socket errors get their fixed texts; a socket code without its own text follows "Network error: " and any other exception's message follows "Connection error: " |
| VlessVpnService.ErrorMessageInjective | Services/VlessVpnService.cs:67-78 | the timeout, the three named socket errors, other socket codes and other exceptions each get a text no other failure gets |
| VlessVpnService.ConnectPhaseAsWritten | Services/VlessVpnService.cs:37-52 | as written, the connect phase never yields a socket error: a faulted connect is a generic exception |
| VlessVpnService.RefusedReportedAsGenericError | Services/VlessVpnService.cs:40-78 | as written, a refused connection is reported as "Connection error: Connection failed without exception", never with the refused text |
| VlessVpnService.ConnectPhase | Services/VlessVpnService.cs:37-52 | with the connect task awaited: success iff the port is valid and the connect completes without fault; timeout iff the timer wins; a socket error iff the connect faults |
| VlessVpnService.ConnectPhaseReportsSocketError | Services/VlessVpnService.cs:40-78 | with the connect task awaited, a faulted connect is reported with its own socket text. The two versions agree on every other input |
| VlessVpnService.HandshakeBytes | Services/VlessVpnService.cs:140-157 | the handshake is byte 1 followed by the UTF-8 of the id and the flow written back to back |
| VlessVpnService.HandshakeLayout | Services/VlessVpnService.cs:140-157 | for ASCII id and flow, the handshake is 1 + |id| + |flow| bytes |
| VlessVpnService.HandshakeNotSelfDelimiting | Services/VlessVpnService.cs:142-156 | configs whose id and flow join to the same text send identical handshakes |
| VlessVpnService.ServiceFailure | Services/VlessVpnService.cs:26-84 | as written, Connect succeeds iff the port is valid, the connect wins the race without a fault and the handshake write succeeds; the timeout is reported exactly when the timer wins on a valid port; no socket error ever reaches the mapping |
| VlessVpnService.VlessVpnService.constructor | Services/VlessVpnService.cs:11-17 | a new service is disconnected with zero counters |
| VlessVpnService.VlessVpnService.Disconnect | Services/VlessVpnService.cs:112-138 | always clears stream, client and the connected flag and cancels the token source; it emits no status |
| VlessVpnService.VlessVpnService.Connect | Services/VlessVpnService.cs:26-84 | returns true iff ServiceFailure reports none. On success: "Connecting...", "Connected", connected, with the handshake sent. On failure: "Connecting..." and the mapped message of the failure as written (a faulted connect gets the generic text), then disconnected, with nothing sent and nothing thrown. BytesReceived is kept |
| VlessVpnService.VlessVpnService.ReadDataStep | Services/VlessVpnService.cs:86-110 | once cancelled the loop stops and nothing changes. A positive read adds its length to BytesReceived and keeps the connection, stream, client and token source. A zero-byte read or a fault disconnects and stops. BytesSent stays 0 |
| ConfigStorage.AddTo | Services/ConfigStorageService.cs:11-28 | null, blank id and existing id are rejected with their errors; otherwise exactly one key, the config's id, is added for it and every other entry is unchanged |
| ConfigStorage.UpdateIn | Services/ConfigStorageService.cs:30-47 | null, blank id and unknown id are rejected; otherwise only that id's value is replaced and the key set is unchanged |
| ConfigStorage.RemoveFrom | Services/ConfigStorageService.cs:49-63 | blank id and unknown id are rejected; otherwise exactly that key is deleted and every other entry is unchanged |
| ConfigStorage.GetFrom | Services/ConfigStorageService.cs:65-77 | blank id is rejected; an unknown id is not found; otherwise the stored config is returned |
| ConfigStorage.ExistsIn | Services/ConfigStorageService.cs:87-96 | blank id is rejected; otherwise the result is whether the key is present |
| ConfigStorage.MutationsKeepKeyed | Services/ConfigStorageService.cs:24-59 | successful Add, Update and Remove keep every config under its own non-blank id |
| ConfigStorage.AddThenGetThenRemove | Services/ConfigStorageService.cs:11-96 | after Add, Get returns the config and Exists is true; adding it again fails; Remove restores the previous dictionary |
| ConfigStorage.UpdateThenGet | Services/ConfigStorageService.cs:30-77 | after Update, Get returns the new config, and repeating the update changes nothing |
| ConfigStorage.RemoveThenExists | Services/ConfigStorageService.cs:49-96 | after Remove the id does not exist, and Get and a second Remove fail as not found |
| ConfigStorage.ListValues | Services/ConfigStorageService.cs:79-85 | lists every stored config exactly once and nothing else |
| ConfigStorage.InMemoryConfigStorage.constructor | Services/ConfigStorageService.cs:8 | the store starts empty |
| ConfigStorage.InMemoryConfigStorage.AddConfig | Services/ConfigStorageService.cs:11-28 | the dictionary becomes AddTo's result on success and is unchanged on rejection |
| ConfigStorage.InMemoryConfigStorage.UpdateConfig | Services/ConfigStorageService.cs:30-47 | the dictionary becomes UpdateIn's result on success and is unchanged on rejection |
| ConfigStorage.InMemoryConfigStorage.RemoveConfig | Services/ConfigStorageService.cs:49-63 | the dictionary becomes RemoveFrom's result on success and is unchanged on rejection |
| ConfigStorage.InMemoryConfigStorage.GetConfig | Services/ConfigStorageService.cs:65-77 | returns GetFrom's answer and changes nothing |
| ConfigStorage.InMemoryConfigStorage.GetAllConfigs | Services/ConfigStorageService.cs:79-85 | returns exactly the stored values, each once |
| ConfigStorage.InMemoryConfigStorage.ConfigExists | Services/ConfigStorageService.cs:87-96 | returns ExistsIn's answer and changes nothing |
| JsonConfigStorage.ToDictionary | Services/JsonFileConfigStorageService.cs:30 | the loaded dictionary keeps each config under its own id, with exactly the listed ids as keys; a failure is a duplicate-key error naming a listed id |
| JsonConfigStorage.ToDictionaryDistinct | Services/JsonFileConfigStorageService.cs:30 | loading succeeds iff no two listed configs share an id, and then holds each listed config under its id |
| JsonConfigStorage.LoadConfigs | Services/JsonFileConfigStorageService.cs:19-32 | a missing file or a JSON null gives an empty dictionary; a loaded dictionary keeps configs under their ids |
| JsonConfigStorage.LoadSaved | Services/JsonFileConfigStorageService.cs:19-41 | loading what a save wrote gives back the saved dictionary |
| JsonConfigStorage.Open | Services/JsonFileConfigStorageService.cs:13-17 | construction fails exactly when loading the file fails (a repeated id); otherwise the store holds what was loaded |
| JsonConfigStorage.JsonFileConfigStorage.constructor | Services/JsonFileConfigStorageService.cs:13-17 | the store holds the dictionary loaded from its file |
| JsonConfigStorage.JsonFileConfigStorage.Save | Services/JsonFileConfigStorageService.cs:34-41 | the file holds every value once, and reads back as the current dictionary |
| JsonConfigStorage.JsonFileConfigStorage.AddConfig | Services/JsonFileConfigStorageService.cs:43-60 | same effect as the in-memory Add; a rejection leaves the file alone; a success leaves a file that loads as the new dictionary |
| JsonConfigStorage.JsonFileConfigStorage.UpdateConfig | Services/JsonFileConfigStorageService.cs:62-79 | same effect as the in-memory Update; a rejection leaves the file alone; a success leaves a file that loads as the new dictionary |
| JsonConfigStorage.JsonFileConfigStorage.RemoveConfig | Services/JsonFileConfigStorageService.cs:81-95 | same effect as the in-memory Remove; a rejection leaves the file alone; a success leaves a file that loads as the new dictionary |
| JsonConfigStorage.JsonFileConfigStorage.GetConfig | Services/JsonFileConfigStorageService.cs:97-109 | returns GetFrom's answer; writes nothing |
| JsonConfigStorage.JsonFileConfigStorage.GetAllConfigs | Services/JsonFileConfigStorageService.cs:111-117 | returns exactly the stored values, each once; writes nothing |
| JsonConfigStorage.JsonFileConfigStorage.ConfigExists | Services/JsonFileConfigStorageService.cs:119-128 | returns ExistsIn's answer; writes nothing |
| VpnConfigViewModel.Pushed | ViewModels/VpnConfigViewModel.cs:373-377 | Add fails exactly on an empty list at or over capacity; otherwise the new item is last, preceded by the old items, minus the first one when the list was full |
| VpnConfigViewModel.PushedAllKeepsNewest | ViewModels/VpnConfigViewModel.cs:371-377 | with capacity at least 1, a buffer holding the newest elements keeps holding the newest elements of everything added |
| VpnConfigViewModel.PushedAllFromEmpty | ViewModels/VpnConfigViewModel.cs:371-377 | from empty, n adds leave the last min(n, capacity) items in order, so Count never exceeds capacity |
| VpnConfigViewModel.PushedAllZeroCapacity | ViewModels/VpnConfigViewModel.cs:371-375 | with capacity 0 or less, adding to the empty buffer fails |
| VpnConfigViewModel.CircularBuffer.constructor | ViewModels/VpnConfigViewModel.cs:371 | a new buffer is empty with the given capacity |
| VpnConfigViewModel.CircularBuffer.Add | ViewModels/VpnConfigViewModel.cs:373-377 | at capacity, `RemoveAt(0)` then append, throwing on an empty list; the buffer never exceeds its capacity |
| VpnConfigViewModel.CircularBuffer.Clear | ViewModels/VpnConfigViewModel.cs:322-323 | the buffer is emptied |
| VpnConfigViewModel.NextStatusMessage | ViewModels/VpnConfigViewModel.cs:359-364 | a status replaces the message, unless it is "Disconnected" and the message is non-empty |
| VpnConfigViewModel.StatusAfterShowsLastOther | ViewModels/VpnConfigViewModel.cs:359-364 | after a series of non-empty statuses the line shows the last one that is not "Disconnected"; "Disconnected" shows only on an empty line |
| VpnConfigViewModel.FirstWithId | ViewModels/VpnConfigViewModel.cs:262 | finds the first listed config with the id, or none |
| VpnConfigViewModel.ViewModel.constructor | ViewModels/VpnConfigViewModel.cs:18-85 | the page starts with an empty input and status line, not busy, and already lists every stored config once, since the JSON store answers `GetAllConfigsAsync` at once |
| VpnConfigViewModel.ViewModel.LoadConfigs | ViewModels/VpnConfigViewModel.cs:206-224 | the list becomes every stored config, each once and nothing else; the page ends not busy; the input and status line are untouched |
| VpnConfigViewModel.ViewModel.OnConnectionStatusChanged | ViewModels/VpnConfigViewModel.cs:359-364 | the status line becomes NextStatusMessage of the old line and the status |
| VpnConfigViewModel.ViewModel.AddConfig | ViewModels/VpnConfigViewModel.cs:226-251 | a blank URL only sets "Please enter a valid VLESS URL", leaves the busy flag and makes no storage call; a parse failure is reported and keeps the input, the list and the store file; a store failure is reported; a success lists the config, clears the input, reports it and leaves a store file that reloads as the new dictionary |
| VpnConfigViewModel.ViewModel.AddParsed | ViewModels/VpnConfigViewModel.cs:238-241 | a parsed config is stored, listed and reported, with a store file that reloads as the new dictionary; or the store's error is reported and the store, its file, the list and the input are kept |
| VpnConfigViewModel.ViewModel.Unlist | ViewModels/VpnConfigViewModel.cs:262-268 | removes only the first listed entry with the id and then reports "Configuration removed successfully"; with no such entry nothing changes |
| VpnConfigViewModel.ViewModel.DeleteConfig | ViewModels/VpnConfigViewModel.cs:253-277 | a null or empty id does nothing; otherwise the store removes it, or its error is reported and the store and its file are left alone; on success the store's dictionary loses the id and its file reloads as that dictionary, and the first listed entry with that id is removed and "Configuration removed successfully" reported (with no listed entry the list and line stay as they were); the input is never touched |

## Left out

- Sockets, TLS and timers: TCP connect, the `WhenAny`/`Delay` race, `SslStream` and stream reads and writes are parameters that say how each call ended. Real I/O is not modelled.
- Concurrency: `MonitorConnection`, `SendKeepAlives` and `ReadDataAsync` run in the background in the source. Only one pass of each loop is modelled, as a method called on its own, and the interleavings are not. `Interlocked`, `lock`, `volatile` and the cancellation token's timing are left out.
- `Uptime`, `_lastActivityTime` and the `DataTransferred` event are clock readings and notifications with no effect on the modelled state.
- `Dispose` only calls `Disconnect`.
- Logging through `Console.WriteLine` is left out.
- SHA-256, `GetRSAPublicKey` and `ExportSubjectPublicKeyInfo` are not modelled. The hash is a function parameter. A non-RSA certificate, for which the source catches the exception and returns false, is a certificate without a key.
- `IPAddress.TryParse` is a function parameter, not the lenient .NET parser.
- Config.Parse: `System.Uri` is a simplified splitter. It takes the user info up to the last '@', lower-cases an ASCII host, and leaves the port at -1 when absent. It rejects an empty host or a port above 65535. The rest of `Uri` is not modelled:
  - `Uri.Fragment` and `Uri.UserInfo` are percent-escaped, so for `vless://id@host:443#DE 1` the source's remark is "DE%201" while the model's is "DE 1". Non-ASCII text is escaped the same way.
  - `Uri` trims leading and trailing white space from the whole link.
  - Whether `Uri` accepts an empty host for a scheme it does not know is not settled here; the model rejects it.
  - Percent-decoding, IPv6 literals, IDN hosts and the other `Uri` checks are not modelled.
- Config.Lookup: `HttpUtility.ParseQueryString` is split on '&' and the first '='. Repeated keys are joined with ','. No URL decoding is done.
- Config.ParseFormat: the round trip holds for configs whose id, address, remark and query values use only RFC 3986 unreserved characters (which `Uri` leaves unescaped), whose address is lower case, and whose text avoids the URI delimiters.
- Case-insensitive comparison and `ToLowerInvariant` are modelled on ASCII letters only.
- Config.Parse: the scheme test `StartsWith("vless://")` is culture-sensitive in .NET, so ignorable characters such as a leading soft hyphen (U+00AD) are skipped. The model compares ordinally.
- CertificateValidator.HexDecode: the source tests the odd length in UTF-16 code units. The model counts characters, so a pin containing characters outside the Basic Multilingual Plane is measured differently.
- Aliasing of configs: both stores keep and return the caller's `VlessConfig` objects, so `ConnectToVpn`'s `config.Security = …` rewrites the entry held in the store's dictionary. Both stores' `GetAllConfigsAsync` return a live view of the dictionary's values rather than a copy. The model stores and returns values, so none of this sharing is captured.
- Guid.TryParseExactD: only the strict "D" layout is accepted. Texts that .NET's "D" parsing also accepts, such as those with a leading sign or "0x" inside a group, are rejected by the model.
- `VlessConfig` has no `EnableChunkStreaming` property in `Models/VlessConfig.cs`, although the handler reads it. The model carries it as a boolean field, and `Parse` leaves it false.
- `QuickRealityConnect` and `ConnectToVpn` are not modelled. The first sets `ShortId` and `SpiderX`, which `VlessConfig` does not declare. The second sets `LastError` on the item view model, which does not declare it either.
- The speed statistics (`UpdateSpeed`, `CalculateSpeeds`, `FormatSpeed`) and the chart are not modelled. They are floating point, clock and presentation code. `LoadConfigsAsync` is modelled as `LoadConfigs`, for the JSON store only.
- The JSON store's file system and JSON text are not modelled. Two things follow:
  - An exception thrown while saving after a successful change is not modelled.
  - A JSON list containing null entries or null ids, which throws in `ToDictionary`, is not modelled either.
- The stores' `Id` and `Address` are modelled as non-null strings; every construction site sets them.
- NetworkConnectionManager.ConnectionManager.MonitorConnection: only the outcome of the monitor's first pass is modelled. In the source it starts as soon as the connection completes, so in practice it tears the connection down shortly after. The model does not tie the two together in time.
- VlessVpnService.VlessVpnService.Disconnect: the source comment says "Disconnected" is skipped only when an error message is already shown. The model follows the code, whose guard is false on every call.
- VlessVpnService.VlessVpnService.ReadDataStep: `TcpClient.Connected` turning false without a read is not modelled. The loop ends only through cancellation, a zero-byte read or a fault.

## Findings

| source | as written | input that shows it | evidently intended | confidence | as-written member | corrected member |
|---|---|---|---|---|---|---|
| Services/VlessVpnService.cs:40-78 | after `WhenAny`, the connect task is never awaited, so a faulted connect only fails the `Connected` check and is reported as "Connection error: Connection failed without exception"; the `SocketException` branches of the message mapping can never fire for a failed connect | port 443, connect refused by the server: the message is the generic text instead of "Connection refused (server is down)" | await the completed connect task (as `NetworkConnectionManager.EstablishTcpConnection` does at line 76) so its `SocketException` reaches the mapping | high (not executed) | VlessVpnService.ConnectPhaseAsWritten | VlessVpnService.ConnectPhase |
