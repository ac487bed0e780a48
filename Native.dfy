/**
 * The native adapter between the host's record form of a Sign-In with
 * Ethereum (EIP-4361) message and the `siwe` crate: the conversions in both
 * directions, the options conversion, and the decisions taken by the
 * `verify` and `parse_if_valid` entry points once their work runs.
 */
module SiweNative {
  import opened Wrappers
  import Hex
  import opened Siwe

  /** `Parsed`: the message as the host sees it, every field still text. */
  datatype Parsed = Parsed(
    domain: string,
    address: string,
    statement: Option<string>,
    uri: string,
    version: string,
    chainId: u64,
    nonce: string,
    issuedAt: string,
    expirationTime: Option<string>,
    notBefore: Option<string>,
    requestId: Option<string>,
    resources: seq<string>)

  /** `VerifyOptions`: the host's verification options, every field still text. */
  datatype VerifyOptions = VerifyOptions(
    domain: Option<string>,
    nonce: Option<string>,
    timestamp: Option<string>,
    rpcUrl: Option<string>)

  /** Why `to_eip4361_message` refused a record; `detail` is the foreign error's text. */
  datatype ConvertError =
    | FailedToParseResource(detail: string)
    | BadDomain(detail: string)
    | BadAddress(detail: string)
    | BadUri(detail: string)
    | BadVersion(detail: string)
    | FailedToConvertIssuedAt(detail: string)
  {
    /** The words that name the failing field. */
    function Label(): (l: string)
      ensures |l| >= 9 && l[|l| - 2..] == ": "
    {
      match this
      case FailedToParseResource(_) => "Failed to parse resource: "
      case BadDomain(_) => "Bad domain: "
      case BadAddress(_) => "Bad address: "
      case BadUri(_) => "Bad uri: "
      case BadVersion(_) => "Bad version: "
      case FailedToConvertIssuedAt(_) => "Failed to convert issued at: "
    }

    /** The message string the host receives: the field's label, then the foreign error's text. */
    function Text(): (t: string)
      ensures |t| >= |detail| + 9
      ensures t[|t| - |detail|..] == detail
      ensures t[|t| - |detail| - 2..|t| - |detail|] == ": "
    {
      Label() + detail
    }
  }

  /** The host can tell from the text alone which field failed and with what error. */
  lemma ConvertErrorTextDistinct(e1: ConvertError, e2: ConvertError)
    requires e1.Text() == e2.Text()
    ensures e1 == e2
  {
    var t := e1.Text();
    assert t[0] == e2.Text()[0] && t[4] == e2.Text()[4];
    if t[0] == 'F' {
      assert t[10] == e2.Text()[10];
    }
    assert e1.Label() == e2.Label();
    assert e1.detail == t[|e1.Label()|..] == e2.detail;
  }

  /** Why `parse_if_valid` refused; `detail` is the foreign error's text. */
  datatype Rejection =
    | SignatureNotBytes(detail: string)
    | ParseFailed(detail: string)
    | VerifyFailed(detail: string)
    | InvalidTime
  {
    /**
     * The message string the host receives: a signature failure is labelled,
     * the grammar's and the verifier's errors are passed on verbatim.
     */
    function Text(): (t: string)
      ensures SignatureNotBytes? ==> |t| == 32 + |detail| && t[..32] == "Failed to convert sig to bytes: "
      ensures !InvalidTime? ==> |t| >= |detail| && t[|t| - |detail|..] == detail
      ensures ParseFailed? || VerifyFailed? ==> t == detail
      ensures InvalidTime? ==> t == "Invalid time"
    {
      match this
      case SignatureNotBytes(d) => "Failed to convert sig to bytes: " + d
      case ParseFailed(d) => d
      case VerifyFailed(d) => d
      case InvalidTime => "Invalid time"
    }
  }

  /** Different rejections can reach the host as the same text. */
  lemma RejectionTextIsLossy(d: string)
    ensures ParseFailed(d).Text() == VerifyFailed(d).Text()
    ensures VerifyFailed("Invalid time").Text() == InvalidTime.Text()
    ensures ParseFailed("Failed to convert sig to bytes: " + d).Text() == SignatureNotBytes(d).Text()
  {
  }

  /** `s.chars().skip(n).collect()`: the text without its first `n` characters. */
  function SkipChars(s: string, n: nat): (t: string)
    ensures |t| == if |s| <= n then 0 else |s| - n
    ensures forall i :: 0 <= i < |t| ==> t[i] == s[n + i]
  {
    if |s| <= n then [] else s[n..]
  }

  // ---------------------------------------------------------------------------
  // Host options to `VerificationOpts`

  /** `.map(|x| parse(&x).ok()).flatten()`: absent, or present and unparseable, is absent. */
  function ParseOrNone<T>(parse: string -> Result<T, string>, s: Option<string>): (o: Option<T>)
    ensures o.Some? <==> s.Some? && parse(s.value).Ok?
    ensures o.Some? ==> parse(s.value) == Ok(o.value)
  {
    match s
    case None => None
    case Some(x) => OkOrNone(parse(x))
  }

  /**
   * `impl Into<VerificationOpts> for VerifyOptions`. Lenient: an expected
   * domain or timestamp that does not parse is dropped, so that constraint is
   * not enforced; the nonce goes through as given.
   */
  function IntoVerificationOpts(lib: Library, o: VerifyOptions): (v: VerificationOpts)
    ensures v.domain.Some? <==> o.domain.Some? && lib.parseAuthority(o.domain.value).Ok?
    ensures v.domain.Some? ==> lib.parseAuthority(o.domain.value) == Ok(v.domain.value)
    ensures v.nonce == o.nonce
    ensures v.timestamp.Some? <==> o.timestamp.Some? && lib.parseRfc3339(o.timestamp.value).Ok?
    ensures v.timestamp.Some? ==> lib.parseRfc3339(o.timestamp.value) == Ok(v.timestamp.value)
    ensures v.rpcProvider.Some? <==> o.rpcUrl.Some?
    ensures v.rpcProvider.Some? ==> v.rpcProvider.value.rpcUrl == o.rpcUrl.value
  {
    VerificationOpts(
      ParseOrNone(lib.parseAuthority, o.domain),
      o.nonce,
      ParseOrNone(lib.parseRfc3339, o.timestamp),
      match o.rpcUrl
      case None => None
      case Some(url) => Some(HttpProvider(url)))
  }

  /** An expected domain or timestamp that does not parse constrains nothing: it is as if absent. */
  lemma UnparseableOptionIsDropped(lib: Library, o: VerifyOptions, d: string, t: string)
    ensures lib.parseAuthority(d).Err? ==>
      IntoVerificationOpts(lib, o.(domain := Some(d))) == IntoVerificationOpts(lib, o.(domain := None))
    ensures lib.parseRfc3339(t).Err? ==>
      IntoVerificationOpts(lib, o.(timestamp := Some(t))) == IntoVerificationOpts(lib, o.(timestamp := None))
  {
  }

  // ---------------------------------------------------------------------------
  // Field conversions

  /** `to_timestamp`: never fails; a string that is not a timestamp becomes absent. */
  function ToTimestamp(lib: Library, s: Option<string>): (t: Option<TimeStamp>)
    ensures s.None? ==> t.None?
    ensures s.Some? && lib.parseTimeStamp(s.value).Err? ==> t.None?
    ensures s.Some? && lib.parseTimeStamp(s.value).Ok? ==> t == Some(lib.parseTimeStamp(s.value).value)
  {
    ParseOrNone(lib.parseTimeStamp, s)
  }

  /** `from_timestamp`: absent stays absent, present becomes its text. */
  function FromTimestamp(lib: Library, t: Option<TimeStamp>): (s: Option<string>)
    ensures s.Some? <==> t.Some?
    ensures t.Some? ==> s.value == lib.timeStampText(t.value)
  {
    match t
    case None => None
    case Some(x) => Some(lib.timeStampText(x))
  }

  /** `to_timestamp` reads back what `from_timestamp` writes, when printed timestamps re-parse. */
  lemma TimestampRoundTrip(lib: Library, t: Option<TimeStamp>)
    requires forall x :: lib.parseTimeStamp(lib.timeStampText(x)) == Ok(x)
    ensures ToTimestamp(lib, FromTimestamp(lib, t)) == t
  {
  }

  /** `version_string`: the one version is written "1". */
  function VersionString(v: Version): (s: string)
    ensures s == "1"
  {
    match v
    case V1 => "1"
  }

  /**
   * The address field: the first two characters are dropped without being
   * looked at, and what is left must be exactly 20 bytes of hex.
   */
  function AddressFromHex(s: string): (r: Result<Address, Hex.HexError>)
    ensures r.Ok? <==> |Hex.StripPrefix(SkipChars(s, 2))| == 40 && Hex.AllHexDigits(Hex.StripPrefix(SkipChars(s, 2)))
    ensures r.Ok? ==> Hex.Spells(Hex.StripPrefix(SkipChars(s, 2)), r.value)
  {
    match Hex.DecodeToArray(SkipChars(s, 2), 20)
    case Err(e) => Err(e)
    case Ok(b) => Ok(b)
  }

  /** Whatever the two leading characters, they are skipped and any case spelling of the 40 digits is read. */
  lemma AddressSkipsWhateverLeads(c0: char, c1: char, digits: string, a: Address)
    requires Hex.Spells(digits, a)
    ensures AddressFromHex([c0, c1] + digits) == Ok(a)
  {
    assert SkipChars([c0, c1] + digits, 2) == digits;
    Hex.DecodeSpelled(digits, a);
  }

  // ---------------------------------------------------------------------------
  // `Parsed` to `Message`

  /**
   * The resource loop, as a value: the parsed resources of `rs` in order, or
   * the error of the first one that does not parse.
   */
  function ParseResources(lib: Library, rs: seq<string>): (r: Result<seq<UriString>, string>)
    ensures r.Ok? <==> forall i :: 0 <= i < |rs| ==> lib.parseUri(rs[i]).Ok?
    ensures r.Ok? ==> |r.value| == |rs|
    ensures r.Ok? ==> forall i :: 0 <= i < |rs| ==> lib.parseUri(rs[i]) == Ok(r.value[i])
    ensures r.Err? ==> exists k :: 0 <= k < |rs| && lib.parseUri(rs[k]) == Err(r.error) &&
                                 (forall j :: 0 <= j < k ==> lib.parseUri(rs[j]).Ok?)
    decreases |rs|
  {
    if rs == [] then Ok([])
    else
      var init := rs[..|rs| - 1];
      assert forall i :: 0 <= i < |init| ==> init[i] == rs[i];
      match ParseResources(lib, init)
      case Err(e) => Err(e)
      case Ok(us) =>
        match lib.parseUri(rs[|rs| - 1])
        case Err(e) => Err(e)
        case Ok(u) => Ok(us + [u])
  }

  /** Once a prefix of the resources fails, the rest is never looked at. */
  lemma ParseResourcesStopsAtFailure(lib: Library, rs: seq<string>, k: nat)
    requires k <= |rs| && ParseResources(lib, rs[..k]).Err?
    ensures ParseResources(lib, rs) == ParseResources(lib, rs[..k])
  {
  }

  /**
   * The fields after the resources, in the order the struct literal evaluates
   * them: the first of domain, address, uri, version and issued-at that does
   * not parse is the error.
   */
  function BuildMessage(lib: Library, p: Parsed, resources: seq<UriString>): (r: Result<Message, ConvertError>)
    ensures lib.parseAuthority(p.domain).Err? ==> r == Err(BadDomain(lib.parseAuthority(p.domain).error))
    ensures lib.parseAuthority(p.domain).Ok? && AddressFromHex(p.address).Err? ==>
      r == Err(BadAddress(lib.hexErrorText(AddressFromHex(p.address).error)))
    ensures lib.parseAuthority(p.domain).Ok? && AddressFromHex(p.address).Ok? && lib.parseUri(p.uri).Err? ==>
      r == Err(BadUri(lib.parseUri(p.uri).error))
    ensures lib.parseAuthority(p.domain).Ok? && AddressFromHex(p.address).Ok? && lib.parseUri(p.uri).Ok? &&
            lib.parseVersion(p.version).Err? ==>
      r == Err(BadVersion(lib.parseVersion(p.version).error))
    ensures r.Ok? <==>
      && lib.parseAuthority(p.domain).Ok? && AddressFromHex(p.address).Ok? && lib.parseUri(p.uri).Ok?
      && lib.parseVersion(p.version).Ok? && lib.parseTimeStamp(p.issuedAt).Ok?
    ensures lib.parseAuthority(p.domain).Ok? && AddressFromHex(p.address).Ok? && lib.parseUri(p.uri).Ok? &&
            lib.parseVersion(p.version).Ok? && lib.parseTimeStamp(p.issuedAt).Err? ==>
      r == Err(FailedToConvertIssuedAt(lib.parseTimeStamp(p.issuedAt).error))
    ensures r.Ok? ==> FieldsConvertedFrom(lib, p, r.value) && r.value.resources == resources
  {
    match lib.parseAuthority(p.domain)
    case Err(e) => Err(BadDomain(e))
    case Ok(domain) =>
      match AddressFromHex(p.address)
      case Err(e) => Err(BadAddress(lib.hexErrorText(e)))
      case Ok(address) =>
        match lib.parseUri(p.uri)
        case Err(e) => Err(BadUri(e))
        case Ok(uri) =>
          match lib.parseVersion(p.version)
          case Err(e) => Err(BadVersion(e))
          case Ok(version) =>
            match lib.parseTimeStamp(p.issuedAt)
            case Err(e) => Err(FailedToConvertIssuedAt(e))
            case Ok(issuedAt) =>
              Ok(Message(domain, address, p.statement, uri, version, p.chainId, p.nonce, issuedAt,
                         ToTimestamp(lib, p.expirationTime), ToTimestamp(lib, p.notBefore),
                         p.requestId, resources))
  }

  /** Every strictly checked field of `p` parses. */
  predicate StrictFieldsParse(lib: Library, p: Parsed) {
    && (forall i :: 0 <= i < |p.resources| ==> lib.parseUri(p.resources[i]).Ok?)
    && lib.parseAuthority(p.domain).Ok?
    && AddressFromHex(p.address).Ok?
    && lib.parseUri(p.uri).Ok?
    && lib.parseVersion(p.version).Ok?
    && lib.parseTimeStamp(p.issuedAt).Ok?
  }

  /**
   * `m` is `p` read field by field: the strict fields are their parses, the
   * optional timestamps are read leniently, the rest is copied unchanged and
   * the resources keep their number and order.
   */
  predicate ConvertedFrom(lib: Library, p: Parsed, m: Message) {
    && FieldsConvertedFrom(lib, p, m)
    && |m.resources| == |p.resources|
    && forall i :: 0 <= i < |p.resources| ==> lib.parseUri(p.resources[i]) == Ok(m.resources[i])
  }

  /** Every field of `m` but the resources is read from `p`. */
  predicate FieldsConvertedFrom(lib: Library, p: Parsed, m: Message) {
    && lib.parseAuthority(p.domain) == Ok(m.domain)
    && AddressFromHex(p.address) == Ok(m.address)
    && m.statement == p.statement
    && lib.parseUri(p.uri) == Ok(m.uri)
    && lib.parseVersion(p.version) == Ok(m.version)
    && m.chainId == p.chainId
    && m.nonce == p.nonce
    && lib.parseTimeStamp(p.issuedAt) == Ok(m.issuedAt)
    && m.expirationTime == ToTimestamp(lib, p.expirationTime)
    && m.notBefore == ToTimestamp(lib, p.notBefore)
    && m.requestId == p.requestId
  }

  /** `Parsed::to_eip4361_message`, as a value. */
  function Eip4361Message(lib: Library, p: Parsed): (r: Result<Message, ConvertError>)
    ensures ParseResources(lib, p.resources).Err? ==>
      r == Err(FailedToParseResource(ParseResources(lib, p.resources).error))
    ensures r.Ok? <==> StrictFieldsParse(lib, p)
    ensures r.Ok? ==> ConvertedFrom(lib, p, r.value)
  {
    match ParseResources(lib, p.resources)
    case Err(e) => Err(FailedToParseResource(e))
    case Ok(resources) => BuildMessage(lib, p, resources)
  }

  /** `Parsed::to_eip4361_message`: the resources are parsed one by one, stopping at the first failure. */
  method ToEip4361Message(lib: Library, p: Parsed) returns (r: Result<Message, ConvertError>)
    ensures r == Eip4361Message(lib, p)
  {
    var nextResources: seq<UriString> := [];
    var i := 0;
    while i < |p.resources|
      invariant 0 <= i <= |p.resources|
      invariant ParseResources(lib, p.resources[..i]) == Ok(nextResources)
    {
      var resource := p.resources[i];
      match lib.parseUri(resource)
      case Err(e) => {
        assert p.resources[..i + 1][..i] == p.resources[..i];
        ParseResourcesStopsAtFailure(lib, p.resources, i + 1);
        return Err(FailedToParseResource(e));
      }
      case Ok(x) => {
        assert p.resources[..i + 1][..i] == p.resources[..i];
        nextResources := nextResources + [x];
      }
      i := i + 1;
    }
    assert p.resources[..i] == p.resources;
    r := BuildMessage(lib, p, nextResources);
  }

  /** The outcome of each check `to_eip4361_message` makes, in the order it makes them. */
  function ConversionChecks(lib: Library, p: Parsed): seq<Option<ConvertError>> {
    var resources := ParseResources(lib, p.resources);
    var domain := lib.parseAuthority(p.domain);
    var address := AddressFromHex(p.address);
    var uri := lib.parseUri(p.uri);
    var version := lib.parseVersion(p.version);
    var issuedAt := lib.parseTimeStamp(p.issuedAt);
    [ if resources.Err? then Some(FailedToParseResource(resources.error)) else None,
      if domain.Err? then Some(BadDomain(domain.error)) else None,
      if address.Err? then Some(BadAddress(lib.hexErrorText(address.error))) else None,
      if uri.Err? then Some(BadUri(uri.error)) else None,
      if version.Err? then Some(BadVersion(version.error)) else None,
      if issuedAt.Err? then Some(FailedToConvertIssuedAt(issuedAt.error)) else None ]
  }

  /** The first failure in a list of check outcomes. */
  function FirstFailure<E>(checks: seq<Option<E>>): Option<E> {
    if checks == [] then None
    else if checks[0].Some? then checks[0]
    else FirstFailure(checks[1..])
  }

  /**
   * Error precedence: the conversion fails exactly when one of its checks
   * fails, and it reports the first failing one, resources before domain,
   * address, uri, version and issued-at.
   */
  lemma ConversionErrorPrecedence(lib: Library, p: Parsed)
    ensures Eip4361Message(lib, p).Err? <==> FirstFailure(ConversionChecks(lib, p)).Some?
    ensures Eip4361Message(lib, p).Err? ==>
      Eip4361Message(lib, p).error == FirstFailure(ConversionChecks(lib, p)).value
  {
    var cs := ConversionChecks(lib, p);
    FirstFailureOfSix(cs);
  }

  lemma FirstFailureOfSix<E>(cs: seq<Option<E>>)
    requires |cs| == 6
    ensures FirstFailure(cs) ==
      if cs[0].Some? then cs[0] else if cs[1].Some? then cs[1] else if cs[2].Some? then cs[2]
      else if cs[3].Some? then cs[3] else if cs[4].Some? then cs[4] else cs[5]
  {
    var t1 := cs[1..];
    var t2 := t1[1..];
    var t3 := t2[1..];
    var t4 := t3[1..];
    var t5 := t4[1..];
    assert FirstFailure(t5) == if t5[0].Some? then t5[0] else FirstFailure(t5[1..]);
    assert t5[1..] == [];
    assert FirstFailure(t4) == if t4[0].Some? then t4[0] else FirstFailure(t5);
    assert FirstFailure(t3) == if t3[0].Some? then t3[0] else FirstFailure(t4);
    assert FirstFailure(t2) == if t2[0].Some? then t2[0] else FirstFailure(t3);
    assert FirstFailure(t1) == if t1[0].Some? then t1[0] else FirstFailure(t2);
  }

  /** The optional timestamps never make the conversion fail, and change only their own fields. */
  lemma OptionalTimestampsAreLenient(lib: Library, p: Parsed, expiration: Option<string>, notBefore: Option<string>)
    ensures var q := p.(expirationTime := expiration, notBefore := notBefore);
      && Eip4361Message(lib, q).Ok? == Eip4361Message(lib, p).Ok?
      && (Eip4361Message(lib, p).Ok? ==>
            Eip4361Message(lib, q).value ==
            Eip4361Message(lib, p).value.(expirationTime := ToTimestamp(lib, expiration),
                                          notBefore := ToTimestamp(lib, notBefore)))
  {
  }

  // ---------------------------------------------------------------------------
  // `Message` to `Parsed`

  /** The resources' texts, in order: `.into_iter().map(|s| s.to_string()).collect()`. */
  function RenderResources(lib: Library, rs: seq<UriString>): (ss: seq<string>)
    ensures |ss| == |rs|
    ensures forall i :: 0 <= i < |rs| ==> ss[i] == lib.uriText(rs[i])
  {
    if rs == [] then [] else [lib.uriText(rs[0])] + RenderResources(lib, rs[1..])
  }

  /** `message_to_parsed`: every field written as text, the address checksummed. */
  function MessageToParsed(lib: Library, m: Message): (p: Parsed)
    ensures p.version == "1"
    ensures p.statement == m.statement && p.chainId == m.chainId
    ensures p.nonce == m.nonce && p.requestId == m.requestId
    ensures p.domain == lib.authorityText(m.domain) && p.uri == lib.uriText(m.uri)
    ensures p.address == lib.checksum(m.address)
    ensures p.issuedAt == lib.timeStampText(m.issuedAt)
    ensures p.expirationTime == FromTimestamp(lib, m.expirationTime)
    ensures p.notBefore == FromTimestamp(lib, m.notBefore)
    ensures |p.resources| == |m.resources|
    ensures forall i :: 0 <= i < |m.resources| ==> p.resources[i] == lib.uriText(m.resources[i])
  {
    Parsed(
      lib.authorityText(m.domain),
      lib.checksum(m.address),
      m.statement,
      lib.uriText(m.uri),
      VersionString(m.version),
      m.chainId,
      m.nonce,
      lib.timeStampText(m.issuedAt),
      FromTimestamp(lib, m.expirationTime),
      FromTimestamp(lib, m.notBefore),
      m.requestId,
      RenderResources(lib, m.resources))
  }

  /**
   * Round trip: when the foreign printers and parsers agree, converting a
   * message to the host's record and back gives the same message.
   */
  lemma ConversionRoundTrip(lib: Library, m: Message)
    requires RoundTripLaws(lib)
    ensures Eip4361Message(lib, MessageToParsed(lib, m)) == Ok(m)
  {
    var p := MessageToParsed(lib, m);
    var rs := ParseResources(lib, p.resources);
    assert forall i :: 0 <= i < |p.resources| ==> lib.parseUri(p.resources[i]) == Ok(m.resources[i]);
    assert rs.value == m.resources;
    var spelling := lib.checksum(m.address);
    assert IsChecksumSpelling(spelling, m.address);
    assert spelling == [spelling[0], spelling[1]] + spelling[2..];
    AddressSkipsWhateverLeads(spelling[0], spelling[1], spelling[2..], m.address);
    TimestampRoundTrip(lib, m.expirationTime);
    TimestampRoundTrip(lib, m.notBefore);
    assert m.version == V1;
  }

  /** A timestamp too malformed to keep comes back to the host as absent. */
  lemma UnparseableTimestampReadsBackAbsent(lib: Library, p: Parsed, m: Message)
    requires Eip4361Message(lib, p) == Ok(m)
    requires p.expirationTime.Some? && lib.parseTimeStamp(p.expirationTime.value).Err?
    ensures MessageToParsed(lib, m).expirationTime == None
  {
  }

  // ---------------------------------------------------------------------------
  // The `parse` and `to_str` entry points

  /** `parse`: the `siwe` grammar, then the record form. */
  function Parse(lib: Library, text: string): (r: Result<Parsed, string>)
    ensures r.Ok? <==> lib.messageFromStr(text).Ok?
    ensures r.Ok? ==> r.value == MessageToParsed(lib, lib.messageFromStr(text).value)
    ensures r.Err? ==> r.error == "Failed to parse: " + lib.messageFromStr(text).error
  {
    match lib.messageFromStr(text)
    case Err(e) => Err("Failed to parse: " + e)
    case Ok(m) => Ok(MessageToParsed(lib, m))
  }

  /** `to_str`: the record read back into a message, then the canonical text. */
  function ToStr(lib: Library, p: Parsed): (r: Result<string, string>)
    ensures r.Ok? <==> StrictFieldsParse(lib, p)
    ensures r.Err? ==> r.error == "Failed to marshal to string: " + Eip4361Message(lib, p).error.Text()
    ensures r.Ok? ==> r.value == lib.messageText(Eip4361Message(lib, p).value)
  {
    match Eip4361Message(lib, p)
    case Err(e) => Err("Failed to marshal to string: " + e.Text())
    case Ok(m) => Ok(lib.messageText(m))
  }

  /** A record obtained from `parse` is accepted by `to_str`, which prints the message that was parsed. */
  lemma ParseThenToStr(lib: Library, text: string)
    requires RoundTripLaws(lib)
    requires lib.messageFromStr(text).Ok?
    ensures Parse(lib, text).Ok?
    ensures ToStr(lib, Parse(lib, text).value) == Ok(lib.messageText(lib.messageFromStr(text).value))
  {
    ConversionRoundTrip(lib, lib.messageFromStr(text).value);
  }

  // ---------------------------------------------------------------------------
  // The `verify` entry point

  /**
   * The result `verify` delivers: false when the record does not convert or
   * the signature is not hex; otherwise the library's verdict. `now` is the
   * wall-clock instant the library reads.
   */
  function Verify(lib: Library, message: Parsed, sig: string, opts: VerifyOptions, now: DateTime): (ok: bool)
    ensures Eip4361Message(lib, message).Err? ==> !ok
    ensures Hex.Decode(sig).Err? ==> !ok
    ensures Eip4361Message(lib, message).Ok? && Hex.Decode(sig).Ok? ==>
      (ok <==> lib.verify(Eip4361Message(lib, message).value, Hex.Decode(sig).value,
                          IntoVerificationOpts(lib, opts), now).Ok?)
  {
    var o := IntoVerificationOpts(lib, opts);
    match Eip4361Message(lib, message)
    case Err(_) => false
    case Ok(m) =>
      match Hex.Decode(sig)
      case Err(_) => false
      case Ok(s) => lib.verify(m, s, o, now).Ok?
  }

  /** Any number of signature bytes, hex-encoded with or without "0x", reaches the library as those bytes. */
  lemma VerifyTakesAnySignatureLength(lib: Library, message: Parsed, b: seq<Hex.byte>, opts: VerifyOptions, now: DateTime)
    requires Eip4361Message(lib, message).Ok?
    ensures var verdict := lib.verify(Eip4361Message(lib, message).value, b, IntoVerificationOpts(lib, opts), now).Ok?;
      && Verify(lib, message, Hex.Encode(b), opts, now) == verdict
      && Verify(lib, message, "0x" + Hex.Encode(b), opts, now) == verdict
  {
    Hex.DecodeEncode(b);
  }

  // ---------------------------------------------------------------------------
  // The `parse_if_valid` entry point

  /** The signature of `parse_if_valid`: two characters skipped, then exactly 65 bytes of hex. */
  function SignatureBytes(sig: string): (r: Result<seq<Hex.byte>, Hex.HexError>)
    ensures r.Ok? <==> |Hex.StripPrefix(SkipChars(sig, 2))| == 130 && Hex.AllHexDigits(Hex.StripPrefix(SkipChars(sig, 2)))
    ensures r.Ok? ==> |r.value| == 65
    ensures r.Ok? ==> Hex.Spells(Hex.StripPrefix(SkipChars(sig, 2)), r.value)
  {
    Hex.DecodeToArray(SkipChars(sig, 2), 65)
  }

  /** Exactly 65 bytes pass, in any case spelling and whatever the two leading characters; no other count does. */
  lemma SignatureBytesExactly65(c0: char, c1: char, digits: string, b: seq<Hex.byte>)
    requires Hex.Spells(digits, b)
    ensures |b| == 65 ==> SignatureBytes([c0, c1] + digits) == Ok(b)
    ensures |b| != 65 ==> SignatureBytes([c0, c1] + digits) == Err(Hex.InvalidStringLength)
  {
    assert SkipChars([c0, c1] + digits, 2) == digits;
    Hex.DecodeSpelled(digits, b);
    Hex.SpellingShape(digits, b);
  }

  /**
   * The result `parse_if_valid` delivers. `verifiedAt` is the instant the
   * library's verification reads, `checkedAt` the later one `valid_now` reads.
   */
  function ParseIfValid(lib: Library, message: string, sig: string, opts: VerifyOptions,
                        verifiedAt: DateTime, checkedAt: DateTime): (r: Result<Parsed, Rejection>)
    ensures SignatureBytes(sig).Err? ==> r == Err(SignatureNotBytes(lib.hexErrorText(SignatureBytes(sig).error)))
    ensures SignatureBytes(sig).Ok? && lib.messageFromStr(message).Err? ==>
      r == Err(ParseFailed(lib.messageFromStr(message).error))
    ensures r.Ok? <==>
      && SignatureBytes(sig).Ok?
      && lib.messageFromStr(message).Ok?
      && lib.verify(lib.messageFromStr(message).value, SignatureBytes(sig).value,
                    IntoVerificationOpts(lib, opts), verifiedAt).Ok?
      && lib.validAt(lib.messageFromStr(message).value, checkedAt)
    ensures SignatureBytes(sig).Ok? && lib.messageFromStr(message).Ok? &&
            lib.verify(lib.messageFromStr(message).value, SignatureBytes(sig).value,
                       IntoVerificationOpts(lib, opts), verifiedAt).Err? ==>
      r == Err(VerifyFailed(lib.verify(lib.messageFromStr(message).value, SignatureBytes(sig).value,
                                       IntoVerificationOpts(lib, opts), verifiedAt).error))
    ensures r.Ok? ==> r.value == MessageToParsed(lib, lib.messageFromStr(message).value)
    ensures r == Err(InvalidTime) <==>
      && SignatureBytes(sig).Ok?
      && lib.messageFromStr(message).Ok?
      && lib.verify(lib.messageFromStr(message).value, SignatureBytes(sig).value,
                    IntoVerificationOpts(lib, opts), verifiedAt).Ok?
      && !lib.validAt(lib.messageFromStr(message).value, checkedAt)
  {
    var o := IntoVerificationOpts(lib, opts);
    match SignatureBytes(sig)
    case Err(e) => Err(SignatureNotBytes(lib.hexErrorText(e)))
    case Ok(s) =>
      match lib.messageFromStr(message)
      case Err(e) => Err(ParseFailed(e))
      case Ok(m) =>
        match lib.verify(m, s, o, verifiedAt)
        case Err(e) => Err(VerifyFailed(e))
        case Ok(_) =>
          if lib.validAt(m, checkedAt) then Ok(MessageToParsed(lib, m)) else Err(InvalidTime)
  }

  /**
   * The freshness gate: a call that succeeds when `valid_now` reads one instant
   * is refused with "Invalid time" when it reads an instant at which the
   * message is no longer valid, though parsing and verification are unchanged.
   */
  lemma FreshnessGate(lib: Library, message: string, sig: string, opts: VerifyOptions,
                      verifiedAt: DateTime, checkedAt: DateTime, later: DateTime)
    requires ParseIfValid(lib, message, sig, opts, verifiedAt, checkedAt).Ok?
    requires !lib.validAt(lib.messageFromStr(message).value, later)
    ensures ParseIfValid(lib, message, sig, opts, verifiedAt, later) == Err(InvalidTime)
  {
  }
}
