/**
 * `CertificateValidator`: the trust decision for the server certificate and the
 * colon-separated hex decoder.
 *
 * SHA-256 and the RSA key extraction are foreign code: the hash is a function
 * parameter, and a certificate is seen only through the SubjectPublicKeyInfo of its
 * RSA key (None when the key is not RSA, where `GetPublicKey` throws).
 */
module CertificateValidator {
  import opened Wrappers
  import opened Text
  import opened Bytes
  import opened Config

  /** What `Validate` reads of an X.509 certificate. */
  datatype Certificate = Certificate(rsaSubjectPublicKeyInfo: Option<seq<byte>>)

  /** The `SslPolicyErrors` flags enum, one field per flag. */
  datatype SslPolicyErrors = SslPolicyErrors(
    remoteCertificateNotAvailable: bool,
    remoteCertificateNameMismatch: bool,
    remoteCertificateChainErrors: bool)

  const NoErrors := SslPolicyErrors(false, false, false)
  const NameMismatchOnly := SslPolicyErrors(false, true, false)

  /** The characters both the pin normaliser and the hex decoder strip. */
  const Separators: set<char> := {':', '-', ' '}

  /**
   * The pin as compared: separators removed, lower-cased.  What is left holds no
   * separator and no upper-case letter; a pin without separators is only lower-cased.
   */
  function NormalizePin(pin: string): (p: string)
    ensures |p| <= |pin|
    ensures forall i :: 0 <= i < |p| ==> p[i] !in Separators && !('A' <= p[i] <= 'Z')
    ensures (forall i :: 0 <= i < |pin| ==> pin[i] !in Separators) ==> p == ToLowerAscii(pin)
  {
    ToLowerAscii(RemoveChars(pin, Separators))
  }

  // ---------------------------------------------------------------- the hash as text

  function UpperPair(b: byte): string {
    [UpperHexDigit(b / 16), UpperHexDigit(b % 16)]
  }

  /** `BitConverter.ToString`: upper-case hex pairs separated by '-'. */
  function BitConverterToString(bs: seq<byte>): string {
    if |bs| == 0 then ""
    else if |bs| == 1 then UpperPair(bs[0])
    else UpperPair(bs[0]) + "-" + BitConverterToString(bs[1..])
  }

  /** `BitConverter.ToString(hash).Replace("-", "").ToLowerInvariant()` */
  function HashHex(hash: seq<byte>): string {
    ToLowerAscii(RemoveChars(BitConverterToString(hash), {'-'}))
  }

  /** Upper-case hex pairs with no separator. */
  function UpperHex(bs: seq<byte>): string {
    if bs == [] then "" else UpperPair(bs[0]) + UpperHex(bs[1..])
  }

  lemma {:induction false} RemoveDashes(bs: seq<byte>)
    ensures RemoveChars(BitConverterToString(bs), {'-'}) == UpperHex(bs)
  {
    if |bs| == 1 {
      assert RemoveChars(UpperPair(bs[0]), {'-'}) == UpperPair(bs[0]);
      assert UpperHex(bs) == UpperPair(bs[0]) + UpperHex([]);
    } else if |bs| > 1 {
      var head, tail := UpperPair(bs[0]), BitConverterToString(bs[1..]);
      RemoveCharsConcat(head, "-" + tail, {'-'});
      RemoveCharsConcat("-", tail, {'-'});
      assert RemoveChars(head, {'-'}) == head;
      assert head + ("-" + tail) == head + "-" + tail;
      RemoveDashes(bs[1..]);
    }
  }

  lemma {:induction false} LowerUpperHex(bs: seq<byte>)
    ensures ToLowerAscii(UpperHex(bs)) == LowerHex(bs)
  {
    if bs != [] {
      ToLowerAsciiConcat(UpperPair(bs[0]), UpperHex(bs[1..]));
      LowerUpperHex(bs[1..]);
      LowerHexCons(bs);
    }
  }

  /** The hash text the validator builds is the plain lower-case hex of the hash. */
  lemma HashHexIsLowerHex(hash: seq<byte>)
    ensures HashHex(hash) == LowerHex(hash)
  {
    RemoveDashes(hash);
    LowerUpperHex(hash);
  }

  lemma LowerHexCons(bs: seq<byte>)
    requires |bs| >= 1
    ensures LowerHex(bs) == [LowerHexDigit(bs[0] / 16), LowerHexDigit(bs[0] % 16)] + LowerHex(bs[1..])
  {
    var t, u := LowerHex(bs), LowerHex(bs[1..]);
    forall i | 2 <= i < |t| ensures t[i] == u[i - 2] {
      assert (i - 2) / 2 == i / 2 - 1 && (i - 2) % 2 == i % 2;
      assert bs[1..][(i - 2) / 2] == bs[i / 2];
    }
    LowerHexAt(bs, 0);
  }

  // ---------------------------------------------------------------- Validate

  /** `CertificateValidator.Validate`, with `sha256` standing for `SHA256.ComputeHash`. */
  function Validate(cert: Option<Certificate>, errors: SslPolicyErrors, config: VlessConfig,
                    sha256: seq<byte> -> seq<byte>): (ok: bool)
    ensures cert.None? ==> !ok
    ensures cert.Some? && config.security == Some("reality") ==>
      (ok <==> && config.fingerprint.Some? && config.fingerprint.value != []
               && cert.value.rsaSubjectPublicKeyInfo.Some?
               && NormalizePin(config.fingerprint.value)
                  == LowerHex(sha256(cert.value.rsaSubjectPublicKeyInfo.value)))
    ensures cert.Some? && config.security != Some("reality") ==>
      (ok <==> errors == NoErrors || errors == NameMismatchOnly)
  {
    if cert.None? then false
    else if config.security == Some("reality") then
      if IsNullOrEmpty(config.fingerprint) then false
      else
        var fingerprint := NormalizePin(config.fingerprint.value);
        match cert.value.rsaSubjectPublicKeyInfo
        case None => false
        case Some(spki) =>
          var certHashHex := HashHex(sha256(spki));
          HashHexIsLowerHex(sha256(spki));
          LowerCaseIdempotent(RemoveChars(config.fingerprint.value, Separators));
          LowerHexIsLower(sha256(spki));
          EqualsIgnoreCase(fingerprint, certHashHex)
    else
      errors == NoErrors || errors == NameMismatchOnly
  }

  lemma LowerCaseIdempotent(s: string)
    ensures ToLowerAscii(ToLowerAscii(s)) == ToLowerAscii(s)
  {
  }

  lemma LowerHexIsLower(bs: seq<byte>)
    ensures ToLowerAscii(LowerHex(bs)) == LowerHex(bs)
  {
    var t := LowerHex(bs);
    forall i | 0 <= i < |t| ensures LowerAscii(t[i]) == t[i] {
      var k := i / 2;
      assert i == 2 * k || i == 2 * k + 1;
      LowerHexAt(bs, k);
    }
  }

  /** Outside REALITY mode the platform's verdict decides, and the pin is never read. */
  lemma PinIgnoredOutsideReality(cert: Certificate, errors: SslPolicyErrors, config: VlessConfig,
                                 pin: Option<string>, sha256: seq<byte> -> seq<byte>)
    requires config.security != Some("reality")
    ensures Validate(Some(cert), errors, config, sha256)
         == Validate(Some(cert), errors, config.(fingerprint := pin), sha256)
  {
  }

  // ---------------------------------------------------------------- HexStringToByteArray

  datatype HexError = OddLength | InvalidHexByte(group: string)

  function HexErrorMessage(e: HexError): string {
    match e
    case OddLength => "Hex string must have even length after cleaning"
    case InvalidHexByte(g) => "Invalid hex byte: " + g
  }

  /** The white space `NumberStyles.AllowLeadingWhite`/`AllowTrailingWhite` skip. */
  predicate IsNumberWhite(c: char) {
    c == ' ' || '\U{9}' <= c <= '\U{D}'
  }

  /**
   * `byte.TryParse(g, NumberStyles.HexNumber, …)` on a two-character group: two hex
   * digits, or one hex digit with leading or trailing white space or a trailing NUL.
   */
  function TryParseHexByte(g: string): (r: Option<byte>)
    requires |g| == 2
    ensures AllHex(g) ==> r == Some(16 * HexValue(g[0]) + HexValue(g[1]))
    ensures !IsHexDigit(g[0]) && !IsHexDigit(g[1]) ==> r.None?
  {
    if IsHexDigit(g[0]) && IsHexDigit(g[1]) then Some(16 * HexValue(g[0]) + HexValue(g[1]))
    else if IsNumberWhite(g[0]) && IsHexDigit(g[1]) then Some(HexValue(g[1]))
    else if IsHexDigit(g[0]) && (IsNumberWhite(g[1]) || g[1] == '\0') then Some(HexValue(g[0]))
    else None
  }

  /** Group `j` of an even-length string: the characters at 2j and 2j+1. */
  function GroupAt(t: string, j: nat): (g: string)
    requires 2 * j + 2 <= |t|
    ensures |g| == 2 && g[0] == t[2 * j] && g[1] == t[2 * j + 1]
  {
    t[2 * j..2 * j + 2]
  }

  predicate GroupOk(t: string, j: nat)
    requires 2 * j + 2 <= |t|
  {
    TryParseHexByte(GroupAt(t, j)).Some?
  }

  function GroupValue(t: string, j: nat): byte
    requires 2 * j + 2 <= |t| && GroupOk(t, j)
  {
    TryParseHexByte(GroupAt(t, j)).value
  }

  /** Group `j` is the first one that does not parse. */
  predicate FirstBadGroup(t: string, j: nat)
    requires 2 * j + 2 <= |t|
  {
    !GroupOk(t, j) && forall k :: 0 <= k < j ==> GroupOk(t, k)
  }

  /** Decodes an even-length string group by group, failing at the first bad group. */
  function DecodeGroups(t: string): (r: Result<seq<byte>, HexError>)
    requires |t| % 2 == 0
    ensures r.Success? <==> forall j :: 0 <= j < |t| / 2 ==> GroupOk(t, j)
    ensures r.Success? ==> |r.value| == |t| / 2
    ensures r.Success? ==> forall j :: 0 <= j < |t| / 2 ==> GroupOk(t, j) && r.value[j] == GroupValue(t, j)
    ensures r.Failure? ==> exists j :: 0 <= j < |t| / 2 && FirstBadGroup(t, j) && r.error == InvalidHexByte(GroupAt(t, j))
  {
    if t == [] then Success([])
    else
      assert GroupAt(t, 0) == t[..2];
      match TryParseHexByte(t[..2])
      case None =>
        assert FirstBadGroup(t, 0);
        Failure(InvalidHexByte(t[..2]))
      case Some(b) =>
        match DecodeGroups(t[2..])
        case Failure(e) =>
          var j :| 0 <= j < |t[2..]| / 2 && FirstBadGroup(t[2..], j) && e == InvalidHexByte(GroupAt(t[2..], j));
          BadGroupShift(t, j);
          Failure(e)
        case Success(bs) =>
          GoodGroupsShift(t, b, bs);
          Success([b] + bs)
  }

  /** Group `j` after the first group is group `j + 1` of the whole string. */
  lemma GroupShift(t: string, j: nat)
    requires |t| >= 2 && 2 * j + 2 <= |t[2..]|
    ensures GroupAt(t[2..], j) == GroupAt(t, j + 1)
    ensures GroupOk(t[2..], j) == GroupOk(t, j + 1)
    ensures GroupOk(t, j + 1) ==> GroupValue(t[2..], j) == GroupValue(t, j + 1)
  {
    assert GroupAt(t[2..], j) == GroupAt(t, j + 1);
  }

  /** The first bad group after a good first group is the first bad group of the whole string. */
  lemma BadGroupShift(t: string, j: nat)
    requires |t| >= 2 && GroupOk(t, 0) && 2 * j + 2 <= |t[2..]| && FirstBadGroup(t[2..], j)
    ensures 2 * (j + 1) + 2 <= |t| && FirstBadGroup(t, j + 1) && GroupAt(t[2..], j) == GroupAt(t, j + 1)
  {
    forall k | 0 < k < j + 1 ensures GroupOk(t, k) {
      GroupShift(t, k - 1);
    }
    GroupShift(t, j);
  }

  /** A good first group followed by good groups decoding to `bs` decodes to `[b] + bs`. */
  lemma GoodGroupsShift(t: string, b: byte, bs: seq<byte>)
    requires |t| >= 2 && |t| % 2 == 0 && TryParseHexByte(t[..2]) == Some(b) && |bs| == |t[2..]| / 2
    requires forall j :: 0 <= j < |t[2..]| / 2 ==> GroupOk(t[2..], j) && bs[j] == GroupValue(t[2..], j)
    ensures forall j :: 0 <= j < |t| / 2 ==> GroupOk(t, j) && ([b] + bs)[j] == GroupValue(t, j)
  {
    assert GroupAt(t, 0) == t[..2];
    forall j | 0 < j < |t| / 2 ensures GroupOk(t, j) && ([b] + bs)[j] == GroupValue(t, j) {
      GroupShift(t, j - 1);
    }
  }

  /** `HexStringToByteArray` as a value: strip separators, reject odd length, decode. */
  function HexDecode(hex: string): (r: Result<seq<byte>, HexError>)
    ensures r == Failure(OddLength) <==> |RemoveChars(hex, Separators)| % 2 != 0
    ensures r.Success? ==> 2 * |r.value| == |RemoveChars(hex, Separators)|
  {
    var cleaned := RemoveChars(hex, Separators);
    if |cleaned| % 2 != 0 then Failure(OddLength) else DecodeGroups(cleaned)
  }

  /** `CertificateValidator.HexStringToByteArray`: fills a fresh array one group at a time. */
  method HexStringToByteArray(hex: string) returns (r: Result<seq<byte>, HexError>)
    ensures r == HexDecode(hex)
  {
    var cleaned := RemoveChars(hex, Separators);
    if |cleaned| % 2 != 0 {
      return Failure(OddLength);
    }
    var bytes := new byte[|cleaned| / 2];
    for i := 0 to bytes.Length
      invariant forall j :: 0 <= j < i ==> GroupOk(cleaned, j)
      invariant forall j :: 0 <= j < i ==> GroupOk(cleaned, j) && bytes[j] == GroupValue(cleaned, j)
    {
      var hexByte := cleaned[i * 2..i * 2 + 2];
      assert hexByte == GroupAt(cleaned, i);
      match TryParseHexByte(hexByte)
      case None =>
        assert FirstBadGroup(cleaned, i);
        FirstBadGroupUnique(cleaned, i);
        return Failure(InvalidHexByte(hexByte));
      case Some(b) =>
        bytes[i] := b;
    }
    DecodeGroupsPointwise(cleaned, bytes[..]);
    r := Success(bytes[..]);
  }

  /** The failing group the decoder reports is the first one, so there is only one. */
  lemma FirstBadGroupUnique(t: string, i: nat)
    requires |t| % 2 == 0 && 2 * i + 2 <= |t| && FirstBadGroup(t, i)
    ensures DecodeGroups(t) == Failure(InvalidHexByte(GroupAt(t, i)))
  {
    var r := DecodeGroups(t);
    assert !GroupOk(t, i);
    var j :| 0 <= j < |t| / 2 && FirstBadGroup(t, j) && r.error == InvalidHexByte(GroupAt(t, j));
    assert j == i;
  }

  /** A string that lower-cases to the hex of `bs` decodes group by group to `bs`. */
  lemma DecodeGroupsOfLowerHex(t: string, bs: seq<byte>)
    requires ToLowerAscii(t) == LowerHex(bs)
    ensures |t| % 2 == 0 && DecodeGroups(t) == Success(bs)
  {
    assert |t| == 2 * |bs| by {
      assert |ToLowerAscii(t)| == |LowerHex(bs)|;
    }
    forall j | 0 <= j < |bs| ensures GroupOk(t, j) && GroupValue(t, j) == bs[j] {
      GroupOfLowerHex(t, bs, j);
    }
    DecodeGroupsPointwise(t, bs);
  }

  /** A string whose every group parses to the matching byte of `bs` decodes to `bs`. */
  lemma DecodeGroupsPointwise(t: string, bs: seq<byte>)
    requires |t| == 2 * |bs|
    requires forall j :: 0 <= j < |bs| ==> GroupOk(t, j) && GroupValue(t, j) == bs[j]
    ensures DecodeGroups(t) == Success(bs)
  {
    var r := DecodeGroups(t);
    assert |t| / 2 == |bs|;
    assert r.Success?;
    assert |r.value| == |bs|;
    assert forall j :: 0 <= j < |bs| ==> r.value[j] == bs[j];
    assert r.value == bs;
  }

  lemma GroupOfLowerHex(t: string, bs: seq<byte>, j: nat)
    requires ToLowerAscii(t) == LowerHex(bs) && j < |bs|
    ensures 2 * j + 2 <= |t| && GroupOk(t, j) && GroupValue(t, j) == bs[j]
  {
    var b := bs[j];
    var hi, lo := t[2 * j], t[2 * j + 1];
    LowerHexAt(bs, j);
    assert LowerAscii(hi) == LowerHexDigit(b / 16) by {
      assert ToLowerAscii(t)[2 * j] == LowerAscii(hi);
    }
    assert LowerAscii(lo) == LowerHexDigit(b % 16) by {
      assert ToLowerAscii(t)[2 * j + 1] == LowerAscii(lo);
    }
    HexDigitOfLower(hi, b / 16);
    HexDigitOfLower(lo, b % 16);
    PairValue(GroupAt(t, j), b);
  }

  lemma PairValue(g: string, b: byte)
    requires |g| == 2 && IsHexDigit(g[0]) && IsHexDigit(g[1])
    requires HexValue(g[0]) == b / 16 && HexValue(g[1]) == b % 16
    ensures TryParseHexByte(g) == Some(b)
  {
    assert AllHex(g);
  }

  /** Decoding the lower-case hex the validator prints gives back the bytes. */
  lemma HexDecodeLowerHex(bs: seq<byte>)
    ensures HexDecode(LowerHex(bs)) == Success(bs)
  {
    var t := LowerHex(bs);
    assert forall i :: 0 <= i < |t| ==> t[i] !in Separators;
    LowerHexIsLower(bs);
    DecodeGroupsOfLowerHex(t, bs);
  }

  /** The pin REALITY mode accepts is one `HexStringToByteArray` decodes to the key's hash. */
  lemma AcceptedPinDecodesToHash(cert: Certificate, errors: SslPolicyErrors, config: VlessConfig,
                                 sha256: seq<byte> -> seq<byte>)
    requires config.security == Some("reality")
    requires Validate(Some(cert), errors, config, sha256)
    ensures cert.rsaSubjectPublicKeyInfo.Some? && config.fingerprint.Some?
    ensures HexDecode(config.fingerprint.value) == Success(sha256(cert.rsaSubjectPublicKeyInfo.value))
  {
    var cleaned := RemoveChars(config.fingerprint.value, Separators);
    DecodeGroupsOfLowerHex(cleaned, sha256(cert.rsaSubjectPublicKeyInfo.value));
  }
}
