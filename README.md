# siwe-ex native adapter, modelled in Dafny

The repository wraps the Rust `siwe` crate (Sign-In with Ethereum, EIP-4361) for an
Elixir host. Its own logic is the adapter in `native/siwe_native/src/lib.rs`. That
adapter converts the host's record form of a message (`Parsed`, all text) into the
crate's `Message` and back. It converts the host's `VerifyOptions` into the crate's
`VerificationOpts`. It also decides what the `verify` and `parse_if_valid` entry points
deliver. This project models that adapter and proves what it promises:

- the order the fields are checked in, and which error wins;
- which fields are strict and which are lenient, where bad text quietly becomes "absent";
- how resources and plain fields are carried across;
- the accept/reject pipelines of `verify` and `parse_if_valid`.

Files:

- `Wrappers.dfy`: `Option` and `Result`.
- `Hex.dfy`: the hex codec. It is base16 as in section 8 of RFC 4648. Digits may be
  in either case, and one leading "0x" is removed first, as the `alloy` hex codec does.
  The predicate `Spells(digits, bytes)` says that the digits write the bytes. The decoder
  is proved to return exactly the bytes its input spells, and a lower-case encoder is
  proved to produce a spelling of its input.
- `Siwe.dfy`: what the adapter sees of the foreign crates. It declares the `siwe`
  `Message` and `VerificationOpts` and opaque types for authorities, URIs and
  timestamps. The datatype `Library` holds every foreign parser, printer and check as
  an uninterpreted function. `RoundTripLaws` names the laws the round-trip theorem
  assumes of those functions: printed values parse back, "1" is version 1, and a
  checksummed address is a spelling of its bytes.
- `Native.dfy`: the adapter itself (module `SiweNative`).

`to_eip4361_message` builds its resource list with a loop that stops at the first
failure. The method `ToEip4361Message` models it with that loop, and proves the loop
equal to the function `Eip4361Message`. The function is what the rest of the model
and the lemmas use. Everything else in `lib.rs` is a chain of `match` and `?`, and is
modelled as functions.

Foreign calls become fields of `Library`. The network-dependent `Message::verify` is
`Library.verify`, and it takes the wall-clock instant it would read as a parameter.
`valid_now` is `Library.validAt` applied to an explicit instant.

Three points of the adapter's behaviour are easy to miss:

- `expiration_time` and `not_before` are read leniently: a malformed one becomes
  absent (lib.rs:83-84, 98-106). The options conversion likewise drops an expected
  domain or timestamp that does not parse (lib.rs:43-51).
- `parse_if_valid` reports a message that is not valid at the moment of the check as
  the string "Invalid time" (lib.rs:183).
- `verify` hex-decodes the signature text itself and accepts any even number of digits
  (lib.rs:153); only `parse_if_valid` insists on 65 bytes (lib.rs:173).

## Model

| member | source | states |
|---|---|---|
| `Hex.Decode` | native/siwe_native/src/lib.rs:153 | `hex::decode` succeeds exactly when the text after an optional "0x" is an even number of hex digits; the result has half as many bytes, and the digits are a base16 spelling of them (two digits per byte, high digit first, either case) |
| `Hex.DecodeToArray` | native/siwe_native/src/lib.rs:72 | `from_hex` into `[u8; n]` succeeds exactly when `hex::decode` does and yields `n` bytes, with the same bytes; an odd digit count is reported as such, an even but wrong count as a wrong length, and at the right length the first character that is not a hex digit is reported with its position |
| `Hex.DecodeEncode` | native/siwe_native/src/lib.rs:153 | round trip: the encoding of any byte string decodes back to it, with or without "0x" |
| `Hex.DecodeSpelled` | native/siwe_native/src/lib.rs:72-73 | every spelling of `b`, in any mix of cases, decodes to `b`, both as a vector and as an array of its own length |
| `SiweNative.ConvertError.Text` | native/siwe_native/src/lib.rs:65-82 | the host's text of a conversion error ends with the foreign error's text, after ": " and a label that names the failing field |
| `SiweNative.ConvertErrorTextDistinct` | native/siwe_native/src/lib.rs:65-82 | two conversion errors with the same text are the same error: the text tells which field failed and with what error |
| `SiweNative.Rejection.Text` | native/siwe_native/src/lib.rs:174-187 | a signature failure is "Failed to convert sig to bytes: " followed immediately by the hex error's text; the grammar's and the verifier's errors are passed on verbatim; a stale message is "Invalid time" |
| `SiweNative.RejectionTextIsLossy` | native/siwe_native/src/lib.rs:174-187 | a parse failure and a verification failure with the same text look the same to the host, as do a verifier error reading "Invalid time" and the time check, and a grammar error that starts with the signature label and a signature failure |
| `SiweNative.SkipChars` | native/siwe_native/src/lib.rs:72 | `chars().skip(n)` keeps the characters from position n on, in order, and is empty when the text has n or fewer |
| `SiweNative.BuildMessage` | native/siwe_native/src/lib.rs:69-87 | the struct literal fails with the first of domain, address, uri, version and issued_at that does not parse; otherwise every field is read from the record and the resources are the ones already parsed |
| `SiweNative.IntoVerificationOpts` | native/siwe_native/src/lib.rs:40-57 | the expected domain and timestamp are present exactly when given and parseable, and then they are those parses; the nonce is passed through unchanged; a provider is present exactly when an RPC URL is, built from that URL |
| `SiweNative.UnparseableOptionIsDropped` | native/siwe_native/src/lib.rs:43-51 | an unparseable expected domain gives the same options as none at all, and so, independently, does an unparseable expected timestamp, so that constraint is silently not enforced |
| `SiweNative.ToTimestamp` | native/siwe_native/src/lib.rs:98-106 | `to_timestamp` never fails: absent stays absent, unparseable text becomes absent, parseable text becomes its parse |
| `SiweNative.FromTimestamp` | native/siwe_native/src/lib.rs:91-96 | `from_timestamp` keeps absence and writes a present timestamp as its text |
| `SiweNative.TimestampRoundTrip` | native/siwe_native/src/lib.rs:91-106 | when printed timestamps re-parse, `to_timestamp` after `from_timestamp` is the identity |
| `SiweNative.VersionString` | native/siwe_native/src/lib.rs:108-112 | version 1 is written "1" |
| `SiweNative.AddressFromHex` | native/siwe_native/src/lib.rs:72-73 | the address converts exactly when, after its first two characters and an optional "0x", exactly 40 hex digits remain; the 20 bytes are the ones those digits spell |
| `SiweNative.AddressSkipsWhateverLeads` | native/siwe_native/src/lib.rs:72 | the first two characters are never compared with "0x": any two characters followed by any spelling of an address give that address |
| `SiweNative.ParseResources` | native/siwe_native/src/lib.rs:62-67 | the resources convert exactly when each one parses; the result has the same length and order, each element the parse of its input; a failure carries the error of the first resource that fails |
| `SiweNative.ParseResourcesStopsAtFailure` | native/siwe_native/src/lib.rs:63-65 | once a prefix of the resources fails, later resources do not affect the outcome |
| `SiweNative.ToEip4361Message` | native/siwe_native/src/lib.rs:61-88 | the loop that pushes parsed resources and returns at the first failure computes exactly `Eip4361Message` |
| `SiweNative.Eip4361Message` | native/siwe_native/src/lib.rs:61-88 | a failing resource yields "Failed to parse resource" whatever the other fields hold; the conversion succeeds exactly when the resources, domain, address, uri, version and issued_at all parse; on success each strict field is its parse, the optional timestamps are read leniently, statement, chain id, nonce and request id are copied unchanged, and the resources keep their number and order |
| `SiweNative.ConversionErrorPrecedence` | native/siwe_native/src/lib.rs:63-82 | the conversion fails exactly when one of its six checks fails, and it reports the first failing one in the order resources, domain, address, uri, version, issued_at |
| `SiweNative.OptionalTimestampsAreLenient` | native/siwe_native/src/lib.rs:81-84 | replacing `expiration_time` and `not_before` by anything never changes whether the conversion succeeds, and changes only those two fields of the result |
| `SiweNative.RenderResources` | native/siwe_native/src/lib.rs:127 | the rendered resources have the same count and order, each the text of its URI |
| `SiweNative.MessageToParsed` | native/siwe_native/src/lib.rs:114-129 | the domain, uri and issued_at are written as their texts and the address as its checksum spelling; the version is written "1"; statement, chain id, nonce and request id are copied unchanged; each optional timestamp is absent when it was and otherwise its text, as `from_timestamp` writes it; resources are rendered in order with their count kept |
| `SiweNative.ConversionRoundTrip` | native/siwe_native/src/lib.rs:61-129 | under the foreign round-trip laws, converting a message to the record form and back gives the same message |
| `SiweNative.UnparseableTimestampReadsBackAbsent` | native/siwe_native/src/lib.rs:124 | a malformed expiration time that passed conversion comes back to the host as absent |
| `SiweNative.Parse` | native/siwe_native/src/lib.rs:131-136 | `parse` succeeds exactly when the `siwe` grammar accepts the text, yields that message in record form, and otherwise prefixes the grammar's error with "Failed to parse: " |
| `SiweNative.ToStr` | native/siwe_native/src/lib.rs:138-144 | `to_str` succeeds exactly when every strict field parses, and then returns the library's text of the converted message; a failure is the conversion error prefixed with "Failed to marshal to string: " |
| `SiweNative.ParseThenToStr` | native/siwe_native/src/lib.rs:131-144 | under the foreign round-trip laws, a record produced by `parse` is accepted by `to_str`, which prints the message that was parsed |
| `SiweNative.Verify` | native/siwe_native/src/lib.rs:146-158 | `verify` delivers false whenever the record does not convert or the signature is not hex; otherwise it delivers exactly the library's verdict under the converted options |
| `SiweNative.VerifyTakesAnySignatureLength` | native/siwe_native/src/lib.rs:152-156 | signature bytes of any length, hex-encoded with or without "0x", reach the library as those bytes, so this layer puts no bound on the length |
| `SiweNative.SignatureBytes` | native/siwe_native/src/lib.rs:173-174 | a signature is accepted exactly when, after its first two characters and an optional "0x", 130 hex digits remain; it is then the 65 bytes those digits spell |
| `SiweNative.SignatureBytesExactly65` | native/siwe_native/src/lib.rs:173-174 | any two characters followed by a spelling of `b` are accepted, as `b`, exactly when `b` has 65 bytes; any other count is a wrong-length error |
| `SiweNative.ParseIfValid` | native/siwe_native/src/lib.rs:166-191 | a signature that is not 65 bytes of hex is refused before the message is parsed; a grammar failure comes next; the result is Ok exactly when decoding, parsing, library verification and `valid_now` all succeed, and it is then the parsed message in record form; a failed library verification is refused with the library's error text; verification passing with `valid_now` false is exactly the "Invalid time" case |
| `SiweNative.FreshnessGate` | native/siwe_native/src/lib.rs:178-185 | a call that succeeds is refused with "Invalid time" when `valid_now` reads a later instant at which the message is no longer valid, though parsing and verification are unchanged |

## Left out

- `native/siwe_native/src/runtime.rs` is not part of this model. It holds the process-wide tokio runtime, the worker-thread settings and `spawn`; all of it is concurrency and lifecycle.
- The delivery plumbing of `verify` and `parse_if_valid` is left out: the caller pid, `runtime::spawn`, `OwnedEnv::send_and_clear` and the immediate `ok()` reply. The bodies of the spawned closures are modelled as synchronous functions instead.
- Rustler encoding and decoding of `Parsed` and `VerifyOptions`, and `rustler::init!`, are the host boundary and are left out.
- The `siwe` crate's internals are uninterpreted functions of `Library`: the EIP-4361 grammar and printer, ECDSA recovery and the ERC-1271 contract call inside `Message::verify`, and `valid_now`. The wall clock becomes explicit instants.
- `Address::to_checksum` (EIP-55, which needs Keccak-256) is the uninterpreted `Library.checksum`. Only its shape appears, in `RoundTripLaws`.
- Authority parsing (`http`), URI parsing (`iri_string`) and RFC 3339 parsing (`time`) are uninterpreted functions, and so is their error text.
- `SiweNative.IntoVerificationOpts`: the provider is represented by its RPC URL. Building the `alloy` HTTP client, and the `unwrap` at `lib.rs:53` that panics on an unparseable URL, are not modelled.
- `generate_nonce` is a call to a random generator and is left out.
- `Hex.Decode`: lengths and error positions are counted in characters, while the crate counts UTF-8 bytes. For text that is not ASCII this can change which error is reported, but never whether decoding succeeds.
- `Hex.DecodeToArray`: lengths and error positions are counted in characters, while the crate counts UTF-8 bytes. For text that is not ASCII this can change which error is reported, but never whether decoding succeeds. The text of a hex error is the uninterpreted `Library.hexErrorText`.
- `SiweNative.ParseIfValid`: the rejections are kept apart as cases of `Rejection`, but the host receives only `Rejection.Text()`. A foreign error whose text is "Invalid time" would look the same to the host.
