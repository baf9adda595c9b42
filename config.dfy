/**
 * The endpoint descriptor `VlessConfig` and `VlessConfig.Parse`, which reads a
 * `vless://<id>@<host>:<port>?<query>#<remark>` link.
 *
 * `System.Uri` and `HttpUtility.ParseQueryString` are modelled by a simplified
 * splitter: the authority ends at the first '/', '?' or '#'; the user-info is what
 * precedes the last '@' of the authority; the port follows the last ':' that is not
 * inside an IPv6 bracket; the host is lower-cased; the query runs from the first '?'
 * to the first '#', the fragment from the first '#' to the end.  Keys and values of the
 * query are taken verbatim (no '+' or percent decoding), keys match ignoring ASCII case,
 * and a repeated key yields its values joined by ','.
 */
module Config {
  import opened Wrappers
  import opened Text

  /**
   * One tunnel endpoint.  Every string property of the C# class is nullable; `id` and
   * `address` are set by every construction site and are modelled as plain strings.
   * `enableChunkStreaming` is read by the handshake encoder; Parse leaves it false.
   */
  datatype VlessConfig = VlessConfig(
    id: string,
    address: string,
    port: int,
    transportType: Option<string>,
    security: Option<string>,
    publicKey: Option<string>,
    fingerprint: Option<string>,
    sni: Option<string>,
    sid: Option<string>,
    spx: Option<string>,
    flow: Option<string>,
    remark: string,
    enableChunkStreaming: bool)

  datatype ParseError =
    | InvalidVlessUrl           // ArgumentException from the prefix check
    | InvalidHost               // UriFormatException: empty host
    | InvalidPort               // UriFormatException: port not a number in 0..65535

  function ParseErrorMessage(e: ParseError): string {
    match e
    case InvalidVlessUrl => "Invalid VLESS URL"
    case InvalidHost => "Invalid URI: The hostname could not be parsed."
    case InvalidPort => "Invalid URI: Invalid port specified."
  }

  const Scheme := "vless://"

  /** `Uri.Port` when the link names no port: the scheme has no registered default. */
  const DefaultPort: int := -1

  // ---------------------------------------------------------------- URI splitting

  /** The parts of the URI that `Parse` reads. */
  datatype UriParts = UriParts(userInfo: string, host: string, port: int, query: string, fragment: string)

  /** Host and port from `host[:port]`; -1 is System.Uri's port for an unknown scheme without one. */
  function SplitHostPort(hp: string): (r: Result<(string, int), ParseError>)
    ensures r.Success? ==> r.value.0 != [] && -1 <= r.value.1 <= 65535
  {
    var colon := LastIndexOf(hp, ':');
    var bracket := LastIndexOf(hp, ']');
    var host := if colon > bracket then hp[..colon] else hp;
    var portText := if colon > bracket then hp[colon + 1..] else "";
    if host == [] then Failure(InvalidHost)
    else if portText == [] then Success((ToLowerAscii(host), DefaultPort))
    else if !IsDigits(portText) || DigitsValue(portText) > 65535 then Failure(InvalidPort)
    else Success((ToLowerAscii(host), DigitsValue(portText)))
  }

  /** Splits what follows `vless://` into user-info, host, port, query and fragment. */
  function SplitUri(rest: string): (r: Result<UriParts, ParseError>)
    ensures r.Success? ==> r.value.host != [] && -1 <= r.value.port <= 65535
    ensures r.Success? ==> r.value.fragment == [] || r.value.fragment[0] == '#'
  {
    var a := IndexOfAny(rest, {'/', '?', '#'});
    var authority, tail := rest[..a], rest[a..];
    var f := IndexOfAny(tail, {'#'});
    var beforeFragment, fragment := tail[..f], tail[f..];
    var q := IndexOfAny(beforeFragment, {'?'});
    var at := LastIndexOf(authority, '@');
    var userInfo := if at >= 0 then authority[..at] else "";
    match SplitHostPort(authority[at + 1..])
    case Failure(e) => Failure(e)
    case Success(hostPort) =>
      Success(UriParts(userInfo, hostPort.0, hostPort.1, beforeFragment[q..], fragment))
  }

  // ---------------------------------------------------------------- query strings

  /** One `key=value` segment of a query; a segment without '=' has a null key. */
  datatype QueryPair = QueryPair(key: Option<string>, value: string)

  function ParseSegment(seg: string): (p: QueryPair)
    ensures p.key.Some? ==> '=' !in p.key.value
  {
    var e := IndexOfAny(seg, {'='});
    if e == |seg| then QueryPair(None, seg) else QueryPair(Some(seg[..e]), seg[e + 1..])
  }

  /** `HttpUtility.ParseQueryString`: drop one leading '?', split on '&', split each at its first '='. */
  function ParseQueryString(query: string): (pairs: seq<QueryPair>)
  {
    var q := if query != [] && query[0] == '?' then query[1..] else query;
    if q == [] then []
    else
      var segments := SplitOn(q, '&');
      seq(|segments|, i requires 0 <= i < |segments| => ParseSegment(segments[i]))
  }

  predicate KeyMatches(p: QueryPair, key: string) {
    p.key.Some? && EqualsIgnoreCase(p.key.value, key)
  }

  /** The values stored under `key`, in order. */
  function Matching(pairs: seq<QueryPair>, key: string): (vs: seq<string>)
    ensures |vs| <= |pairs|
  {
    if pairs == [] then []
    else (if KeyMatches(pairs[0], key) then [pairs[0].value] else []) + Matching(pairs[1..], key)
  }

  /** `NameValueCollection[key]`: null when absent, the values joined by ',' otherwise. */
  function Lookup(pairs: seq<QueryPair>, key: string): (r: Option<string>)
    ensures r.None? <==> Matching(pairs, key) == []
  {
    var vs := Matching(pairs, key);
    if vs == [] then None else Some(Join(vs, ','))
  }

  // ---------------------------------------------------------------- Parse

  /** `VlessConfig.Parse` */
  function Parse(url: string): (r: Result<VlessConfig, ParseError>)
    ensures !StartsWith(url, Scheme) <==> r == Failure(InvalidVlessUrl)
    ensures r.Success? ==> '@' !in r.value.id && r.value.address != []
    ensures r.Success? ==> -1 <= r.value.port <= 65535
    ensures r.Success? ==> (r.value.remark == [] || r.value.remark[0] != '#')
    ensures r.Success? ==> !r.value.enableChunkStreaming
  {
    if !StartsWith(url, Scheme) then Failure(InvalidVlessUrl)
    else
      match SplitUri(url[|Scheme|..])
      case Failure(e) => Failure(e)
      case Success(u) => Success(FromParts(u))
  }

  /**
   * The config `Parse` builds from the parts of a link: the id is the user info before
   * its first '@', address and port come from the authority, the remark is the fragment
   * after its leading run of '#', and each optional field is read from the query under
   * its own key.
   */
  function FromParts(u: UriParts): (c: VlessConfig)
    ensures c.id == u.userInfo[..IndexOfAny(u.userInfo, {'@'})] && '@' !in c.id
    ensures c.address == u.host && c.port == u.port
    ensures var n := |u.fragment| - |c.remark|;
      && 0 <= n && c.remark == u.fragment[n..]
      && (forall j :: 0 <= j < n ==> u.fragment[j] == '#')
      && (c.remark == [] || c.remark[0] != '#')
    ensures var query := ParseQueryString(u.query);
      && c.transportType == Lookup(query, "type") && c.security == Lookup(query, "security")
      && c.publicKey == Lookup(query, "pbk") && c.fingerprint == Lookup(query, "fp")
      && c.sni == Lookup(query, "sni") && c.sid == Lookup(query, "sid")
      && c.spx == Lookup(query, "spx") && c.flow == Lookup(query, "flow")
    ensures !c.enableChunkStreaming
  {
    var query := ParseQueryString(u.query);
    assert SplitOn(u.userInfo, '@')[0] in SplitOn(u.userInfo, '@');
    assert u.userInfo[..|u.userInfo|] == u.userInfo;
    VlessConfig(
      id := SplitOn(u.userInfo, '@')[0],
      address := u.host,
      port := u.port,
      transportType := Lookup(query, "type"),
      security := Lookup(query, "security"),
      publicKey := Lookup(query, "pbk"),
      fingerprint := Lookup(query, "fp"),
      sni := Lookup(query, "sni"),
      sid := Lookup(query, "sid"),
      spx := Lookup(query, "spx"),
      flow := Lookup(query, "flow"),
      remark := TrimStartChar(u.fragment, '#'),
      enableChunkStreaming := false)
  }

  // ---------------------------------------------------------------- the link a config prints as

  /** The query pair an optional field prints as: nothing when the field is null. */
  function OptPair(key: string, v: Option<string>): seq<QueryPair> {
    if v.Some? then [QueryPair(Some(key), v.value)] else []
  }

  /** The query keys `Parse` reads, in the order it reads them. */
  const FieldKeys: seq<string> := ["type", "security", "pbk", "fp", "sni", "sid", "spx", "flow"]

  /** The optional fields of a config, each under its query key. */
  function Fields(c: VlessConfig): (es: seq<(string, Option<string>)>)
    ensures |es| == |FieldKeys| && forall i :: 0 <= i < |es| ==> es[i].0 == FieldKeys[i]
  {
    [("type", c.transportType), ("security", c.security), ("pbk", c.publicKey), ("fp", c.fingerprint),
     ("sni", c.sni), ("sid", c.sid), ("spx", c.spx), ("flow", c.flow)]
  }

  function PairsOf(es: seq<(string, Option<string>)>): seq<QueryPair> {
    if es == [] then [] else OptPair(es[0].0, es[0].1) + PairsOf(es[1..])
  }

  /** The query pairs of a config, in the order `Parse` reads them. */
  function FieldPairs(c: VlessConfig): seq<QueryPair> {
    PairsOf(Fields(c))
  }

  function SegmentText(p: QueryPair): string {
    (if p.key.Some? then p.key.value + "=" else "") + p.value
  }

  function SegmentTexts(pairs: seq<QueryPair>): (ts: seq<string>)
    ensures |ts| == |pairs| && forall i :: 0 <= i < |pairs| ==> ts[i] == SegmentText(pairs[i])
  {
    seq(|pairs|, i requires 0 <= i < |pairs| => SegmentText(pairs[i]))
  }

  function QueryText(pairs: seq<QueryPair>): string {
    if pairs == [] then ""
    else "?" + Join(SegmentTexts(pairs), '&')
  }

  function FragmentText(remark: string): string {
    if remark == [] then "" else "#" + remark
  }

  /** The `vless://` link of a config with a non-negative port. */
  function Format(c: VlessConfig): string
    requires c.port >= 0
  {
    Scheme + (c.id + "@" + c.address + ":" + NatToString(c.port)
      + (QueryText(FieldPairs(c)) + FragmentText(c.remark)))
  }

  lemma {:induction false} MatchingConcat(a: seq<QueryPair>, b: seq<QueryPair>, key: string)
    ensures Matching(a + b, key) == Matching(a, key) + Matching(b, key)
  {
    if a == [] {
      assert a + b == b;
    } else {
      var head := if KeyMatches(a[0], key) then [a[0].value] else [];
      assert (a + b)[0] == a[0] && (a + b)[1..] == a[1..] + b;
      assert Matching(a + b, key) == head + Matching(a[1..] + b, key);
      MatchingConcat(a[1..], b, key);
      assert head + (Matching(a[1..], key) + Matching(b, key)) == (head + Matching(a[1..], key)) + Matching(b, key);
    }
  }

  /** A pair under `k` is seen by a lookup of `key` exactly when the two are the same key. */
  lemma MatchingOptPair(k: string, v: Option<string>, key: string)
    ensures EqualsIgnoreCase(k, key) ==> Matching(OptPair(k, v), key) == (if v.Some? then [v.value] else [])
    ensures !EqualsIgnoreCase(k, key) ==> Matching(OptPair(k, v), key) == []
  {
  }

  /** A lookup among entries with case-insensitively distinct keys finds entry `i`'s value. */
  lemma {:induction false} MatchingPairsOf(es: seq<(string, Option<string>)>, i: nat)
    requires i < |es|
    requires forall j :: 0 <= j < |es| && j != i ==> !EqualsIgnoreCase(es[j].0, es[i].0)
    ensures Matching(PairsOf(es), es[i].0) == if es[i].1.Some? then [es[i].1.value] else []
  {
    var key := es[i].0;
    MatchingConcat(OptPair(es[0].0, es[0].1), PairsOf(es[1..]), key);
    MatchingOptPair(es[0].0, es[0].1, key);
    if i == 0 {
      MatchingNone(es[1..], key);
    } else {
      MatchingPairsOf(es[1..], i - 1);
    }
  }

  lemma {:induction false} MatchingNone(es: seq<(string, Option<string>)>, key: string)
    requires forall j :: 0 <= j < |es| ==> !EqualsIgnoreCase(es[j].0, key)
    ensures Matching(PairsOf(es), key) == []
  {
    if es != [] {
      MatchingConcat(OptPair(es[0].0, es[0].1), PairsOf(es[1..]), key);
      MatchingOptPair(es[0].0, es[0].1, key);
      MatchingNone(es[1..], key);
    }
  }

  lemma FieldKeysDistinct(i: nat, j: nat)
    requires i < 8 && j < 8 && i != j
    ensures !EqualsIgnoreCase(FieldKeys[i], FieldKeys[j])
  {
    // the first two letters, all lower case, already tell the keys apart
    var a, b := FieldKeys[i], FieldKeys[j];
    assert |a| >= 2 && |b| >= 2;
    assert LowerAscii(a[0]) != LowerAscii(b[0]) || LowerAscii(a[1]) != LowerAscii(b[1]);
    assert ToLowerAscii(a)[0] != ToLowerAscii(b)[0] || ToLowerAscii(a)[1] != ToLowerAscii(b)[1];
  }

  /** Looking up any of the eight keys in a config's pairs finds exactly that field. */
  lemma LookupFields(c: VlessConfig, i: nat)
    requires i < |FieldKeys|
    ensures Lookup(FieldPairs(c), FieldKeys[i]) == Fields(c)[i].1
  {
    var es := Fields(c);
    forall j | 0 <= j < |es| && j != i ensures !EqualsIgnoreCase(es[j].0, es[i].0) {
      FieldKeysDistinct(j, i);
    }
    MatchingPairsOf(es, i);
  }

  // ---------------------------------------------------------------- Parse undoes Format

  /** Query pairs that print and re-read unchanged: keyed, keys free of '=', '&', '#', values free of '&', '#'. */
  predicate PrintablePair(p: QueryPair) {
    p.key.Some? && Avoids(p.key.value, {'=', '&', '#'}) && Avoids(p.value, {'&', '#'})
  }

  lemma ParseSegmentText(p: QueryPair)
    requires PrintablePair(p)
    ensures ParseSegment(SegmentText(p)) == p
  {
    var k := p.key.value;
    var seg := SegmentText(p);
    assert seg == k + ("=" + p.value);
    AvoidsConcat(k, [], {'='});
    IndexOfAnyConcat(k, "=" + p.value, {'='});
    assert seg[..|k|] == k;
    assert seg[|k| + 1..] == p.value;
  }

  lemma SegmentTextAvoids(p: QueryPair)
    requires PrintablePair(p)
    ensures Avoids(SegmentText(p), {'&', '#'}) && SegmentText(p) != []
  {
    AvoidsConcat(p.key.value, "=", {'&', '#'});
    AvoidsConcat(p.key.value + "=", p.value, {'&', '#'});
  }

  /** The query a list of printable pairs prints as reads back as that list. */
  lemma ParseQueryText(pairs: seq<QueryPair>)
    requires forall i :: 0 <= i < |pairs| ==> PrintablePair(pairs[i])
    ensures ParseQueryString(QueryText(pairs)) == pairs
    ensures Avoids(QueryText(pairs), {'#'})
    ensures QueryText(pairs) == [] || QueryText(pairs)[0] == '?'
  {
    if pairs != [] {
      var q := Join(SegmentTexts(pairs), '&');
      SegmentTextsAvoid(pairs);
      ParseJoinedSegments(pairs);
      AvoidsConcat("?", q, {'#'});
    }
  }

  lemma SegmentTextsAvoid(pairs: seq<QueryPair>)
    requires forall i :: 0 <= i < |pairs| ==> PrintablePair(pairs[i])
    ensures forall i :: 0 <= i < |pairs| ==> Avoids(SegmentTexts(pairs)[i], {'&', '#'}) && SegmentTexts(pairs)[i] != []
    ensures pairs != [] ==> Avoids(Join(SegmentTexts(pairs), '&'), {'#'}) && Join(SegmentTexts(pairs), '&') != []
  {
    var texts := SegmentTexts(pairs);
    forall i | 0 <= i < |texts|
      ensures Avoids(texts[i], {'&', '#'}) && texts[i] != []
    {
      SegmentTextAvoids(pairs[i]);
    }
    if pairs != [] {
      JoinAvoids(texts, '&', {'#'});
      JoinStartsWith(texts, '&');
    }
  }

  /** Dropping the '?' and splitting on '&' gives the printed segments, each of which parses back. */
  lemma ParseJoinedSegments(pairs: seq<QueryPair>)
    requires pairs != [] && forall i :: 0 <= i < |pairs| ==> PrintablePair(pairs[i])
    ensures ParseQueryString("?" + Join(SegmentTexts(pairs), '&')) == pairs
  {
    var texts := SegmentTexts(pairs);
    var q := Join(texts, '&');
    SegmentTextsAvoid(pairs);
    assert ("?" + q)[1..] == q;
    forall t | t in texts
      ensures '&' !in t
    {
      var i :| 0 <= i < |texts| && texts[i] == t;
    }
    SplitJoin(texts, '&');
    forall i | 0 <= i < |pairs|
      ensures ParseSegment(texts[i]) == pairs[i]
    {
      ParseSegmentText(pairs[i]);
    }
  }

  lemma {:induction false} PairsOfPrintable(es: seq<(string, Option<string>)>)
    requires forall j :: 0 <= j < |es| ==> Avoids(es[j].0, {'=', '&', '#'})
    requires forall j :: 0 <= j < |es| && es[j].1.Some? ==> Avoids(es[j].1.value, {'&', '#'})
    ensures forall i :: 0 <= i < |PairsOf(es)| ==> PrintablePair(PairsOf(es)[i])
  {
    if es != [] {
      PairsOfPrintable(es[1..]);
      var head, tail := OptPair(es[0].0, es[0].1), PairsOf(es[1..]);
      forall i | 0 <= i < |head + tail| ensures PrintablePair((head + tail)[i]) {
        if i >= |head| { assert (head + tail)[i] == tail[i - |head|]; }
      }
    }
  }

  /**
   * Text made of the unreserved characters of section 2.3 of RFC 3986: `System.Uri`
   * leaves them unescaped in every component, and URL decoding leaves them unchanged.
   */
  predicate Unreserved(s: string) {
    forall j :: 0 <= j < |s| ==>
      || ('a' <= s[j] <= 'z') || ('A' <= s[j] <= 'Z') || ('0' <= s[j] <= '9')
      || s[j] == '-' || s[j] == '.' || s[j] == '_' || s[j] == '~'
  }

  /**
   * The configs `Format` prints unambiguously: text that `Uri` passes through unescaped,
   * no delimiter inside the part it would end, a lower-case host, a port in range, a
   * remark `TrimStart('#')` leaves alone.  The delimiter clauses follow from the
   * unreserved ones; they are the form the proofs below use.
   */
  predicate Printable(c: VlessConfig) {
    && Unreserved(c.id) && Unreserved(c.address) && Unreserved(c.remark)
    && (forall j :: 0 <= j < |Fields(c)| && Fields(c)[j].1.Some? ==> Unreserved(Fields(c)[j].1.value))
    && Avoids(c.id, {'@', '/', '?', '#'})
    && c.address != [] && Avoids(c.address, {'@', '/', '?', '#', ':', ']'})
    && ToLowerAscii(c.address) == c.address
    && 0 <= c.port <= 65535
    && (forall j :: 0 <= j < |Fields(c)| && Fields(c)[j].1.Some? ==> Avoids(Fields(c)[j].1.value, {'&', '#'}))
    && (c.remark == [] || c.remark[0] != '#')
    && !c.enableChunkStreaming
  }

  /** The authority `Format` prints splits back into its host and port. */
  lemma SplitHostPortOf(address: string, pt: string)
    requires address != [] && Avoids(address, {':', ']'})
    requires pt != [] && IsDigits(pt) && DigitsValue(pt) <= 65535
    ensures SplitHostPort(address + ":" + pt) == Success((ToLowerAscii(address), DigitsValue(pt)))
  {
    var hp := address + ":" + pt;
    DigitsAvoid(pt, {':', ']'});
    AvoidsConcat(pt, [], {':'});
    LastIndexOfConcat(address, ':', pt);
    AvoidsConcat(address, ":", {']'});
    AvoidsConcat(address + ":", pt, {']'});
    LastIndexOfAbsent(hp, ']');
    assert hp[..|address|] == address;
    assert hp[|address| + 1..] == pt;
  }

  /** The link `Format` prints splits back into the parts it was printed from. */
  lemma SplitUriOf(id: string, address: string, pt: string, q: string, f: string)
    requires Avoids(id, {'@', '/', '?', '#'})
    requires address != [] && Avoids(address, {'@', '/', '?', '#', ':', ']'})
    requires pt != [] && IsDigits(pt) && DigitsValue(pt) <= 65535
    requires Avoids(q, {'#'}) && (q == [] || q[0] == '?')
    requires f == [] || f[0] == '#'
    ensures SplitUri(id + "@" + address + ":" + pt + (q + f))
         == Success(UriParts(id, ToLowerAscii(address), DigitsValue(pt), q, f))
  {
    var hp := address + ":" + pt;
    var auth := id + "@" + hp;
    assert auth == id + "@" + address + ":" + pt;
    DigitsAvoid(pt, {'@', '/', '?', '#'});
    AvoidsConcat(address, ":", {'@', '/', '?', '#'});
    AvoidsConcat(address + ":", pt, {'@', '/', '?', '#'});
    AuthorityEnds(id, hp, q + f);
    FragmentStarts(q, f);
    UserInfoEnds(id, hp);
    SplitHostPortOf(address, pt);
  }

  /** The authority ends where the query or fragment starts. */
  lemma AuthorityEnds(id: string, hp: string, tail: string)
    requires Avoids(id, {'/', '?', '#'}) && Avoids(hp, {'/', '?', '#'})
    requires tail == [] || tail[0] in {'/', '?', '#'}
    ensures var rest := id + "@" + hp + tail;
      && IndexOfAny(rest, {'/', '?', '#'}) == |id + "@" + hp|
      && rest[..|id + "@" + hp|] == id + "@" + hp && rest[|id + "@" + hp|..] == tail
  {
    var delims := {'/', '?', '#'};
    var auth := id + "@" + hp;
    AvoidsConcat(id, "@", delims);
    AvoidsConcat(id + "@", hp, delims);
    IndexOfAnyConcat(auth, tail, delims);
  }

  /** After the authority, the fragment starts at the first '#', and the query is all that precedes it. */
  lemma FragmentStarts(q: string, f: string)
    requires Avoids(q, {'#'}) && (q == [] || q[0] == '?')
    requires f == [] || f[0] == '#'
    ensures IndexOfAny(q + f, {'#'}) == |q| && (q + f)[..|q|] == q && (q + f)[|q|..] == f
    ensures IndexOfAny(q, {'?'}) == 0
  {
    IndexOfAnyConcat(q, f, {'#'});
    IndexOfAnyConcat("", q, {'?'});
    assert "" + q == q;
  }

  /** The user-info ends at the last '@' of the authority. */
  lemma UserInfoEnds(id: string, hp: string)
    requires Avoids(hp, {'@'})
    ensures var auth := id + "@" + hp;
      LastIndexOf(auth, '@') == |id| && auth[..|id|] == id && auth[|id| + 1..] == hp
  {
    LastIndexOfConcat(id, '@', hp);
  }

  /** Looking up the eight keys in a config's pairs gives back its eight optional fields. */
  lemma LookupFieldPairs(c: VlessConfig, pairs: seq<QueryPair>)
    requires pairs == FieldPairs(c)
    ensures Lookup(pairs, "type") == c.transportType && Lookup(pairs, "security") == c.security
    ensures Lookup(pairs, "pbk") == c.publicKey && Lookup(pairs, "fp") == c.fingerprint
    ensures Lookup(pairs, "sni") == c.sni && Lookup(pairs, "sid") == c.sid
    ensures Lookup(pairs, "spx") == c.spx && Lookup(pairs, "flow") == c.flow
  {
    LookupFields(c, 0);
    LookupFields(c, 1);
    LookupFields(c, 2);
    LookupFields(c, 3);
    LookupFields(c, 4);
    LookupFields(c, 5);
    LookupFields(c, 6);
    LookupFields(c, 7);
  }

  /** `Parse` reads back every printable config from the link `Format` prints for it. */
  lemma ParseFormat(c: VlessConfig)
    requires Printable(c)
    ensures Parse(Format(c)) == Success(c)
  {
    var pt := NatToString(c.port);
    var q, f := QueryText(FieldPairs(c)), FragmentText(c.remark);
    var rest := c.id + "@" + c.address + ":" + pt + (q + f);
    PrintableQuery(c);
    DigitsValueOfNatToString(c.port);
    SplitUriOf(c.id, c.address, pt, q, f);
    ParseOfSplit(Format(c), rest);
    FromPartsFormat(c);
  }

  /** The query of a printable config holds no '#' and starts with '?' unless empty. */
  lemma PrintableQuery(c: VlessConfig)
    requires Printable(c)
    ensures Avoids(QueryText(FieldPairs(c)), {'#'})
    ensures QueryText(FieldPairs(c)) == [] || QueryText(FieldPairs(c))[0] == '?'
  {
    PairsOfPrintable(Fields(c));
    ParseQueryText(FieldPairs(c));
  }

  lemma ParseOfSplit(url: string, rest: string)
    requires url == Scheme + rest
    ensures SplitUri(rest).Success? ==> Parse(url) == Success(FromParts(SplitUri(rest).value))
  {
    assert url[|Scheme|..] == rest;
  }

  lemma FromPartsFormat(c: VlessConfig)
    requires Printable(c)
    ensures FromParts(UriParts(c.id, c.address, c.port, QueryText(FieldPairs(c)), FragmentText(c.remark))) == c
  {
    PairsOfPrintable(Fields(c));
    ParseQueryText(FieldPairs(c));
    UserInfoWithoutAt(c.id);
    RemarkOfFragment(c.remark);
    LookupFieldPairs(c, ParseQueryString(QueryText(FieldPairs(c))));
  }

  /** User info without '@' is taken whole as the id. */
  lemma UserInfoWithoutAt(id: string)
    requires Avoids(id, {'@'})
    ensures SplitOn(id, '@') == [id]
  {
    IndexOfAnyConcat(id, "", {'@'});
    assert id + "" == id;
  }

  /** The fragment a remark prints as trims back to the remark. */
  lemma RemarkOfFragment(remark: string)
    requires remark == [] || remark[0] != '#'
    ensures TrimStartChar(FragmentText(remark), '#') == remark
  {
    if remark != [] {
      assert FragmentText(remark)[1..] == remark;
    }
  }
}
