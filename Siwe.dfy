/**
 * What the adapter sees of the crates it calls: the `siwe` message and
 * verification options, and the foreign parsers, printers and checks as
 * uninterpreted functions collected in `Library`.
 */
module Siwe {
  import opened Wrappers
  import Hex

  /** `http::uri::Authority`, opaque here. */
  type Authority(==, !new)
  /** `iri_string::types::UriString`, opaque here. */
  type UriString(==, !new)
  /** `siwe::TimeStamp`: an RFC 3339 instant as the `siwe` crate keeps it. */
  type TimeStamp(==, !new)
  /** `time::OffsetDateTime`: the "now" of a verification. */
  type DateTime(==, !new)

  /** `siwe::Version`: the protocol has a single version. */
  datatype Version = V1

  newtype u64 = x: int | 0 <= x < 0x1_0000_0000_0000_0000

  /** A 20-byte account address, `[u8; 20]`. */
  type Address = b: seq<Hex.byte> | |b| == 20 witness seq(20, i => 0)

  /** The HTTP client `alloy` builds from an RPC URL, known here by that URL. */
  datatype Provider = HttpProvider(rpcUrl: string)

  /** `siwe::Message`. */
  datatype Message = Message(
    domain: Authority,
    address: Address,
    statement: Option<string>,
    uri: UriString,
    version: Version,
    chainId: u64,
    nonce: string,
    issuedAt: TimeStamp,
    expirationTime: Option<TimeStamp>,
    notBefore: Option<TimeStamp>,
    requestId: Option<string>,
    resources: seq<UriString>)

  /** `siwe::VerificationOpts`: each constraint is enforced only when present. */
  datatype VerificationOpts = VerificationOpts(
    domain: Option<Authority>,
    nonce: Option<string>,
    timestamp: Option<DateTime>,
    rpcProvider: Option<Provider>)

  /**
   * The foreign primitives. A parser returns its error's display text on
   * failure. `verify` is `Message::verify` awaited to completion, given the
   * wall-clock instant it reads when no timestamp is supplied; `validAt` is
   * `Message::valid_now` at the given instant.
   */
  datatype Library = Library(
    parseAuthority: string -> Result<Authority, string>,
    authorityText: Authority -> string,
    parseUri: string -> Result<UriString, string>,
    uriText: UriString -> string,
    parseVersion: string -> Result<Version, string>,
    parseTimeStamp: string -> Result<TimeStamp, string>,
    timeStampText: TimeStamp -> string,
    parseRfc3339: string -> Result<DateTime, string>,
    checksum: Address -> string,
    hexErrorText: Hex.HexError -> string,
    messageFromStr: string -> Result<Message, string>,
    messageText: Message -> string,
    verify: (Message, seq<Hex.byte>, VerificationOpts, DateTime) -> Result<(), string>,
    validAt: (Message, DateTime) -> bool)

  /** An EIP-55 address: "0x" and then the 40 digits of `a` in some mix of cases. */
  predicate IsChecksumSpelling(s: string, a: Address) {
    |s| == 42 && s[..2] == "0x" && Hex.Spells(s[2..], a)
  }

  /**
   * The laws the foreign crates keep that the adapter's round trip rests on:
   * every printed authority, URI and timestamp parses back to itself, "1" is
   * version 1, and a checksummed address is a spelling of its bytes.
   */
  ghost predicate RoundTripLaws(lib: Library) {
    && (forall a :: lib.parseAuthority(lib.authorityText(a)) == Ok(a))
    && (forall u :: lib.parseUri(lib.uriText(u)) == Ok(u))
    && lib.parseVersion("1") == Ok(V1)
    && (forall t :: lib.parseTimeStamp(lib.timeStampText(t)) == Ok(t))
    && (forall a :: IsChecksumSpelling(lib.checksum(a), a))
  }
}
