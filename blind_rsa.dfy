/** The byte/text helpers of utils/blind-rsa.ts: base 64 to and from `Uint8Array`
    (through `Buffer` when it exists, through `atob`/`btoa` otherwise) and hex to
    `Uint8Array`. The blind-signature suite wrappers of that file are not modelled here;
    the token flow takes the suite's operations as parameters. */
module BlindRsa {
  import opened Text
  import Base64

  // ----- binary strings: one character per byte, as atob and btoa use them -----

  /** `String.fromCharCode(b[0]) + String.fromCharCode(b[1]) + …`. */
  function BinaryString(b: seq<byte>): (s: string)
    ensures |s| == |b|
    ensures forall i | 0 <= i < |b| :: s[i] as int == b[i]
  {
    seq(|b|, i requires 0 <= i < |b| => b[i] as char)
  }

  predicate IsBinaryString(s: string)
  {
    forall i | 0 <= i < |s| :: s[i] as int < 256
  }

  /** `s.charCodeAt(0), s.charCodeAt(1), …` of a binary string. */
  function CharCodes(s: string): (b: seq<byte>)
    requires IsBinaryString(s)
    ensures |b| == |s|
  {
    seq(|s|, i requires 0 <= i < |s| => s[i] as int)
  }

  lemma CharCodesOfBinaryString(b: seq<byte>)
    ensures IsBinaryString(BinaryString(b)) && CharCodes(BinaryString(b)) == b
  {
  }

  /** `atob` on well-formed base 64: the binary string of the decoded bytes. */
  function Atob(s: string): (r: string)
    requires Base64.WellFormed(s)
    ensures IsBinaryString(r) && CharCodes(r) == Base64.Decode(s)
  {
    BinaryString(Base64.Decode(s))
  }

  /** `btoa` on a binary string: the base 64 text of its character codes. */
  function Btoa(s: string): (r: string)
    requires IsBinaryString(s)
    ensures Base64.WellFormed(r) && Atob(r) == s
  {
    Base64.DecodeEncode(CharCodes(s));
    assert BinaryString(CharCodes(s)) == s;
    Base64.Encode(CharCodes(s))
  }

  // ----- b64ToUint8Array (utils/blind-rsa.ts:36-46) -----

  /** Decodes base 64. With `Buffer` it is one call; the browser fallback decodes with
      `atob` and copies each character code into a fresh `Uint8Array`. Either way the
      result is the decoded bytes. */
  method B64ToUint8Array(b64: string, hasBuffer: bool) returns (r: seq<byte>)
    requires Base64.WellFormed(b64)
    ensures r == Base64.Decode(b64)
  {
    if hasBuffer {
      return Base64.Decode(b64);
    }
    var binary := Atob(b64);
    var len := |binary|;
    var bytes := new byte[len];
    for i := 0 to len
      invariant forall k | 0 <= k < i :: bytes[k] == binary[k] as int
    {
      bytes[i] := binary[i] as int;
    }
    r := bytes[..];
    assert r == CharCodes(binary);
    CharCodesOfBinaryString(Base64.Decode(b64));
  }

  // ----- uint8ArrayToB64 (utils/blind-rsa.ts:48-55) -----

  /** Encodes bytes as padded base 64. The fallback appends `String.fromCharCode(u8[i])`
      for each byte and hands the binary string to `btoa`. */
  method Uint8ArrayToB64(u8: seq<byte>, hasBuffer: bool) returns (r: string)
    ensures r == Base64.Encode(u8)
    ensures |r| == 4 * ((|u8| + 2) / 3)
  {
    if hasBuffer {
      return Base64.Encode(u8);
    }
    var binary := "";
    for i := 0 to |u8|
      invariant binary == BinaryString(u8[..i])
    {
      binary := binary + [u8[i] as char];
    }
    assert u8[..|u8|] == u8;
    CharCodesOfBinaryString(u8);
    r := Btoa(binary);
  }

  /** bytes -> base 64 -> bytes is the identity, on either path. */
  method B64RoundTrip(u: seq<byte>, hasBuffer: bool) returns (back: seq<byte>)
    ensures back == u
  {
    var text := Uint8ArrayToB64(u, hasBuffer);
    Base64.DecodeEncode(u);
    back := B64ToUint8Array(text, hasBuffer);
  }

  // ----- hex -----

  predicate IsHexDigit(c: char)
  {
    ('0' <= c <= '9') || ('a' <= c <= 'f') || ('A' <= c <= 'F')
  }

  predicate IsHexString(s: string)
  {
    forall i | 0 <= i < |s| :: IsHexDigit(s[i])
  }

  predicate IsLowerHexDigit(c: char)
  {
    ('0' <= c <= '9') || ('a' <= c <= 'f')
  }

  /** Hex digits as `toString(16)` and `toString("hex")` write them: no capitals. */
  predicate IsLowerHexString(s: string)
  {
    forall i | 0 <= i < |s| :: IsLowerHexDigit(s[i])
  }

  /** The value `parseInt` gives a hex digit of either case. */
  function DigitValue(c: char): (v: int)
    requires IsHexDigit(c)
    ensures 0 <= v < 16
  {
    if '0' <= c <= '9' then c as int - '0' as int
    else if 'a' <= c <= 'f' then c as int - 'a' as int + 10
    else c as int - 'A' as int + 10
  }

  /** The lowercase digit of a value below 16. */
  function LowerDigit(v: int): (c: char)
    requires 0 <= v < 16
    ensures IsLowerHexDigit(c) && IsHexDigit(c) && DigitValue(c) == v
    ensures c != 'x'
  {
    if v < 10 then ('0' as int + v) as char else ('a' as int + v - 10) as char
  }

  /** `hex.replace(/^0x/, "")`: one leading lowercase `0x` is removed, nothing else. */
  function StripPrefix(hex: string): (r: string)
    ensures StartsWith(hex, "0x") ==> hex == "0x" + r
    ensures !StartsWith(hex, "0x") ==> r == hex
  {
    if StartsWith(hex, "0x") then hex[2..] else hex
  }

  function Pow16(k: nat): (p: nat)
    ensures p >= 1
  {
    if k == 0 then 1 else 16 * Pow16(k - 1)
  }

  /** The number a string of hex digits stands for, as `parseInt(s, 16)` reads it;
      k digits stand for less than 16^k. */
  function HexValue(s: string): (v: nat)
    requires IsHexString(s)
    ensures v < Pow16(|s|)
  {
    if s == [] then 0
    else
      var high := HexValue(s[..|s| - 1]);
      assert high + 1 <= Pow16(|s| - 1);
      assert 16 * high + 16 <= 16 * Pow16(|s| - 1);
      16 * high + DigitValue(s[|s| - 1])
  }

  /** Two digits: the first counts sixteen times. */
  lemma HexValueOfPair(s: string)
    requires |s| == 2 && IsHexString(s)
    ensures HexValue(s) == 16 * DigitValue(s[0]) + DigitValue(s[1])
  {
    assert s[..1][..0] == [];
  }

  /** Every digit pair of the text, read as a number. */
  lemma PairsAreDigits(clean: string)
    requires IsHexString(clean)
    ensures forall i | 0 <= i < |clean| / 2 ::
      HexValue(clean[2 * i..2 * i + 2]) == 16 * DigitValue(clean[2 * i]) + DigitValue(clean[2 * i + 1])
  {
    forall i | 0 <= i < |clean| / 2
      ensures HexValue(clean[2 * i..2 * i + 2]) == 16 * DigitValue(clean[2 * i]) + DigitValue(clean[2 * i + 1])
    {
      HexValueOfPair(clean[2 * i..2 * i + 2]);
    }
  }

  /** Byte i is the value `parseInt` gives digit pair i; an unpaired last digit is
      dropped. */
  function PairValues(clean: string): (r: seq<byte>)
    requires IsHexString(clean)
    ensures |r| == |clean| / 2
    ensures forall i | 0 <= i < |r| :: r[i] == HexValue(clean[2 * i..2 * i + 2])
  {
    PairsAreDigits(clean);
    seq(|clean| / 2, i requires 0 <= i < |clean| / 2 =>
      16 * DigitValue(clean[2 * i]) + DigitValue(clean[2 * i + 1]))
  }

  /** Hex text that `hexToUint8Array` accepts: after the prefix, only hex digits. */
  predicate IsHexInput(hex: string)
  {
    IsHexString(StripPrefix(hex))
  }

  /** What `hexToUint8Array` returns, as a value. */
  function HexBytes(hex: string): (r: seq<byte>)
    requires IsHexInput(hex)
    ensures |r| == |StripPrefix(hex)| / 2
    ensures forall i | 0 <= i < |r| :: r[i] == HexValue(StripPrefix(hex)[2 * i..2 * i + 2])
  {
    if hex == "" then [] else PairValues(StripPrefix(hex))
  }

  /** utils/blind-rsa.ts:57-66. The loop runs while `i < len` with `len = clean.length / 2`,
      a fraction for an odd count, so an odd count makes one more round whose write
      lies past the end of the array and is lost. */
  method HexToUint8Array(hex: string) returns (r: seq<byte>)
    requires IsHexInput(hex)
    ensures r == HexBytes(hex)
  {
    if hex == "" {
      return [];
    }
    var clean := StripPrefix(hex);
    ghost var pairs := PairValues(clean);
    var out := new byte[|clean| / 2];
    var rounds := (|clean| + 1) / 2;
    for i := 0 to rounds
      invariant forall k | 0 <= k < i && k < out.Length :: out[k] == pairs[k]
    {
      if i < out.Length {
        HexValueOfPair(clean[2 * i..2 * i + 2]);
        out[i] := HexValue(clean[2 * i..2 * i + 2]);
      }
    }
    r := out[..];
    assert r == pairs;
  }

  /** `Buffer.from(bytes).toString("hex")`: two lowercase digits per byte. */
  function LowerHex(b: seq<byte>): (s: string)
    ensures |s| == 2 * |b|
    ensures IsHexString(s) && IsLowerHexString(s)
    ensures forall i | 0 <= i < |s| :: s[i] != 'x'
  {
    seq(2 * |b|, j requires 0 <= j < 2 * |b| =>
      if j % 2 == 0 then LowerDigit(b[j / 2] / 16) else LowerDigit(b[j / 2] % 16))
  }

  /** Decoding the lowercase hex of bytes gives the bytes back. */
  lemma HexRoundTrip(b: seq<byte>)
    ensures IsHexInput(LowerHex(b))
    ensures HexBytes(LowerHex(b)) == b
  {
    var s := LowerHex(b);
    if |s| >= 2 {
      assert s[1] != 'x';
    }
    assert StripPrefix(s) == s;
    if b != [] {
      var r := PairValues(s);
      forall i | 0 <= i < |b|
        ensures r[i] == b[i]
      {
        assert s[2 * i] == LowerDigit(b[i] / 16);
        assert s[2 * i + 1] == LowerDigit(b[i] % 16);
        HexValueOfPair(s[2 * i..2 * i + 2]);
      }
    }
  }

  /** `hexToUint8Array("")` is the empty array. */
  lemma HexOfEmpty()
    ensures HexBytes("") == []
  {
  }

  /** A leading `0x` is dropped; a second one right after it is kept, and is then
      not hex. */
  lemma StripPrefixOnce(s: string)
    ensures StripPrefix("0x" + s) == s
    ensures !StartsWith(s, "0x") ==> StripPrefix(s) == s
    ensures !IsHexInput("0x0x" + s)
  {
    assert ("0x" + s)[..2] == "0x";
    assert ("0x" + s)[2..] == s;
    assert StripPrefix("0x0x" + s)[1] == 'x';
  }
}
