/**
 * The hex codec the adapter leans on (`alloy::primitives::hex`): base16 as in
 * section 8 of RFC 4648, digits accepted in either case, an optional leading
 * "0x" removed before decoding.
 */
module Hex {
  import opened Wrappers

  newtype byte = x: int | 0 <= x < 256

  /** The failures of `hex::decode` and `FromHex for [u8; N]`. */
  datatype HexError =
    | InvalidHexCharacter(c: char, index: nat)
    | OddLength
    | InvalidStringLength

  predicate IsHexDigit(c: char) {
    '0' <= c <= '9' || 'a' <= c <= 'f' || 'A' <= c <= 'F'
  }

  predicate AllHexDigits(s: string) {
    forall i :: 0 <= i < |s| ==> IsHexDigit(s[i])
  }

  function DigitValue(c: char): (v: nat)
    requires IsHexDigit(c)
    ensures v < 16
  {
    if '0' <= c <= '9' then c as nat - '0' as nat
    else if 'a' <= c <= 'f' then c as nat - 'a' as nat + 10
    else c as nat - 'A' as nat + 10
  }

  /** The byte written by the digit pair `hi lo`. */
  function PairByte(hi: char, lo: char): byte
    requires IsHexDigit(hi) && IsHexDigit(lo)
  {
    (16 * DigitValue(hi) + DigitValue(lo)) as byte
  }

  /** `d` writes the bytes `b` in base16, two digits per byte, high digit first, letters in any case. */
  predicate Spells(d: string, b: seq<byte>)
    decreases |b|
  {
    if b == [] then d == []
    else
      && |d| >= 2 && IsHexDigit(d[0]) && IsHexDigit(d[1])
      && PairByte(d[0], d[1]) == b[0]
      && Spells(d[2..], b[1..])
  }

  /** The input with one leading "0x" removed, if it has one. */
  function StripPrefix(s: string): string {
    if |s| >= 2 && s[0] == '0' && s[1] == 'x' then s[2..] else s
  }

  /**
   * Decodes an even-length run of digits; `offset` is the position of `d[0]`
   * among the digits, so that an error names the first offending character.
   */
  function DecodePairs(d: string, offset: nat): (r: Result<seq<byte>, HexError>)
    requires |d| % 2 == 0
    ensures r.Ok? <==> AllHexDigits(d)
    ensures r.Ok? ==> |r.value| == |d| / 2 && Spells(d, r.value)
    ensures r.Err? ==> r.error.InvalidHexCharacter? && offset <= r.error.index < offset + |d|
    ensures r.Err? ==> d[r.error.index - offset] == r.error.c && !IsHexDigit(r.error.c)
    ensures r.Err? ==> forall j :: 0 <= j < r.error.index - offset ==> IsHexDigit(d[j])
    decreases |d|
  {
    if d == [] then Ok([])
    else if !IsHexDigit(d[0]) then Err(InvalidHexCharacter(d[0], offset))
    else if !IsHexDigit(d[1]) then Err(InvalidHexCharacter(d[1], offset + 1))
    else
      match DecodePairs(d[2..], offset + 2)
      case Err(e) => Err(e)
      case Ok(rest) =>
        var r := [PairByte(d[0], d[1])] + rest;
        assert r[1..] == rest;
        Ok(r)
  }

  /** `hex::decode`: any even number of digits, after the optional "0x". */
  function Decode(s: string): (r: Result<seq<byte>, HexError>)
    ensures r.Ok? <==> |StripPrefix(s)| % 2 == 0 && AllHexDigits(StripPrefix(s))
    ensures r.Ok? ==> |r.value| == |StripPrefix(s)| / 2 && Spells(StripPrefix(s), r.value)
  {
    var d := StripPrefix(s);
    if |d| % 2 != 0 then Err(OddLength) else DecodePairs(d, 0)
  }

  /**
   * `<[u8; n]>::from_hex`: exactly `2 * n` digits after the optional "0x";
   * an odd count is reported before a wrong count, a wrong count before a bad digit.
   */
  function DecodeToArray(s: string, n: nat): (r: Result<seq<byte>, HexError>)
    ensures r.Ok? <==> Decode(s).Ok? && |Decode(s).value| == n
    ensures r.Ok? ==> r == Decode(s) && |r.value| == n
    ensures |StripPrefix(s)| % 2 != 0 ==> r == Err(OddLength)
    ensures |StripPrefix(s)| % 2 == 0 && |StripPrefix(s)| != 2 * n ==> r == Err(InvalidStringLength)
    ensures |StripPrefix(s)| == 2 * n && !AllHexDigits(StripPrefix(s)) ==>
      && r.Err? && r.error.InvalidHexCharacter? && r.error.index < 2 * n
      && StripPrefix(s)[r.error.index] == r.error.c && !IsHexDigit(r.error.c)
      && forall j :: 0 <= j < r.error.index ==> IsHexDigit(StripPrefix(s)[j])
  {
    var d := StripPrefix(s);
    if |d| % 2 != 0 then Err(OddLength)
    else if |d| / 2 != n then Err(InvalidStringLength)
    else DecodePairs(d, 0)
  }

  function LowerDigit(v: nat): (c: char)
    requires v < 16
    ensures IsHexDigit(c) && DigitValue(c) == v
  {
    "0123456789abcdef"[v]
  }

  /** Lower-case base16, the reference the decoder is proved against. */
  function Encode(b: seq<byte>): (s: string)
    ensures |s| == 2 * |b| && Spells(s, b)
  {
    if b == [] then ""
    else
      var s := [LowerDigit(b[0] as nat / 16), LowerDigit(b[0] as nat % 16)] + Encode(b[1..]);
      assert s[2..] == Encode(b[1..]);
      s
  }

  /** A spelling is two digits per byte, and all of its characters are digits. */
  lemma {:induction false} SpellingShape(d: string, b: seq<byte>)
    requires Spells(d, b)
    ensures |d| == 2 * |b| && AllHexDigits(d)
    decreases |b|
  {
    if b != [] {
      SpellingShape(d[2..], b[1..]);
      assert forall i :: 2 <= i < |d| ==> d[i] == d[2..][i - 2];
    }
  }

  /** Every spelling of `b` decodes to `b`, whatever the case of its letters. */
  lemma {:induction false} DecodePairsSpelled(d: string, b: seq<byte>, offset: nat)
    requires Spells(d, b)
    ensures |d| % 2 == 0 && DecodePairs(d, offset) == Ok(b)
    decreases |b|
  {
    SpellingShape(d, b);
    if b != [] {
      DecodePairsSpelled(d[2..], b[1..], offset + 2);
      assert [b[0]] + b[1..] == b;
    }
  }

  /** A spelling never starts with "0x", so the prefix rule leaves it alone. */
  lemma SpellingHasNoPrefix(d: string, b: seq<byte>)
    requires Spells(d, b)
    ensures StripPrefix(d) == d
  {
  }

  /** Round trip: every spelling of `b` decodes to `b`, as a vector and as an array of `b`'s length. */
  lemma DecodeSpelled(d: string, b: seq<byte>)
    requires Spells(d, b)
    ensures Decode(d) == Ok(b)
    ensures DecodeToArray(d, |b|) == Ok(b)
  {
    SpellingHasNoPrefix(d, b);
    DecodePairsSpelled(d, b, 0);
  }

  /** Round trip on the encoder's own output, with or without "0x". */
  lemma DecodeEncode(b: seq<byte>)
    ensures Decode(Encode(b)) == Ok(b)
    ensures Decode("0x" + Encode(b)) == Ok(b)
  {
    var e := Encode(b);
    DecodeSpelled(e, b);
    assert StripPrefix("0x" + e) == e;
  }
}
