/** Base 64 with the standard alphabet and `=` padding, as section 4 of RFC 4648
    defines it (what `Buffer.toString("base64")` and `btoa` produce). */
module Base64 {
  import opened Text

  /** The character of the alphabet that stands for a 6-bit value. */
  function Symbol(v: int): (c: char)
    requires 0 <= v < 64
  {
    if v < 26 then ('A' as int + v) as char
    else if v < 52 then ('a' as int + v - 26) as char
    else if v < 62 then ('0' as int + v - 52) as char
    else if v == 62 then '+'
    else '/'
  }

  predicate IsSymbol(c: char)
  {
    ('A' <= c <= 'Z') || ('a' <= c <= 'z') || ('0' <= c <= '9') || c == '+' || c == '/'
  }

  /** The 6-bit value of a character of the alphabet; `Symbol` read backwards. */
  function SymbolValue(c: char): (v: int)
    requires IsSymbol(c)
    ensures 0 <= v < 64 && Symbol(v) == c
  {
    if 'A' <= c <= 'Z' then c as int - 'A' as int
    else if 'a' <= c <= 'z' then c as int - 'a' as int + 26
    else if '0' <= c <= '9' then c as int - '0' as int + 52
    else if c == '+' then 62
    else 63
  }

  lemma SymbolRoundTrip(v: int)
    requires 0 <= v < 64
    ensures IsSymbol(Symbol(v)) && SymbolValue(Symbol(v)) == v
  {
  }

  // ----- encoding -----

  /** Three bytes become four symbols (24 bits, cut into four 6-bit groups). */
  function EncodeBlock(x: byte, y: byte, z: byte): string
  {
    [Symbol(x / 4), Symbol((x % 4) * 16 + y / 16), Symbol((y % 16) * 4 + z / 64), Symbol(z % 64)]
  }

  /** A final single byte: two symbols, the low bits zero, then `==`. */
  function EncodeOne(x: byte): string
  {
    [Symbol(x / 4), Symbol((x % 4) * 16), '=', '=']
  }

  /** Two final bytes: three symbols, the low bits zero, then `=`. */
  function EncodeTwo(x: byte, y: byte): string
  {
    [Symbol(x / 4), Symbol((x % 4) * 16 + y / 16), Symbol((y % 16) * 4), '=']
  }

  /** The padded base 64 text of a byte sequence: 4 characters per 3 bytes, the
      last group padded, so 4 * ceil(n / 3) characters in all, each a symbol or `=`. */
  function Encode(b: seq<byte>): (r: string)
    ensures |r| == 4 * ((|b| + 2) / 3)
    ensures forall i | 0 <= i < |r| :: IsSymbol(r[i]) || r[i] == '='
    decreases |b|
  {
    if |b| == 0 then ""
    else if |b| == 1 then EncodeOne(b[0])
    else if |b| == 2 then EncodeTwo(b[0], b[1])
    else EncodeBlock(b[0], b[1], b[2]) + Encode(b[3..])
  }

  /** Base 64 text holds neither white space nor `-`. */
  lemma EncodeIsPlain(b: seq<byte>)
    ensures NoWhitespace(Encode(b))
    ensures '-' !in Encode(b)
  {
    var r := Encode(b);
    forall i | 0 <= i < |r|
      ensures !IsWhitespace(r[i]) && r[i] != '-'
    {
      assert IsSymbol(r[i]) || r[i] == '=';
    }
  }

  // ----- decoding -----

  predicate IsFullQuantum(q: string)
  {
    |q| == 4 && IsSymbol(q[0]) && IsSymbol(q[1]) && IsSymbol(q[2]) && IsSymbol(q[3])
  }

  /** The last group of four: `xxxx`, `xxx=` or `xx==`. */
  predicate IsFinalQuantum(q: string)
  {
    |q| == 4 && IsSymbol(q[0]) && IsSymbol(q[1])
    && ((q[2] == '=' && q[3] == '=') || (IsSymbol(q[2]) && (q[3] == '=' || IsSymbol(q[3]))))
  }

  /** Well-formed base 64: groups of four symbols, padding only in the last group.
      Bits below the last byte of a padded group may be non-zero; they are ignored
      by `Decode`, as `Buffer` ignores them. */
  predicate WellFormed(s: string)
    decreases |s|
  {
    if |s| == 0 then true
    else if |s| == 4 then IsFinalQuantum(s)
    else |s| > 4 && IsFullQuantum(s[..4]) && WellFormed(s[4..])
  }

  /** How many `=` end the text (0, 1 or 2 in well-formed text). */
  function PadCount(s: string): nat
  {
    if |s| >= 1 && s[|s| - 1] == '=' then (if |s| >= 2 && s[|s| - 2] == '=' then 2 else 1) else 0
  }

  function DecodeQuantum(q: string): (r: seq<byte>)
    requires IsFinalQuantum(q)
    ensures |r| == 3 - PadCount(q)
  {
    var v0, v1 := SymbolValue(q[0]), SymbolValue(q[1]);
    var x := v0 * 4 + v1 / 16;
    if q[2] == '=' then [x]
    else
      var v2 := SymbolValue(q[2]);
      var y := (v1 % 16) * 16 + v2 / 4;
      if q[3] == '=' then [x, y] else [x, y, (v2 % 4) * 64 + SymbolValue(q[3])]
  }

  /** The bytes that well-formed base 64 text stands for: 3 per group of four,
      less one per `=`. */
  function Decode(s: string): (r: seq<byte>)
    requires WellFormed(s)
    ensures |r| == |s| / 4 * 3 - PadCount(s)
    decreases |s|
  {
    if |s| == 0 then []
    else if |s| == 4 then DecodeQuantum(s)
    else
      PadCountOfRest(s);
      DecodeQuantum(s[..4]) + Decode(s[4..])
  }

  /** Dropping a leading group of four keeps the padding and one group fewer. */
  lemma PadCountOfRest(s: string)
    requires |s| > 4 && IsFullQuantum(s[..4])
    ensures PadCount(s[..4]) == 0 && PadCount(s[4..]) == PadCount(s)
    ensures |s| / 4 * 3 == 3 + |s[4..]| / 4 * 3
  {
    var rest := s[4..];
    assert rest[|rest| - 1] == s[|s| - 1];
    if |rest| >= 2 {
      assert rest[|rest| - 2] == s[|s| - 2];
    } else {
      assert s[|s| - 2] == s[..4][3];
    }
  }

  // ----- the round trip -----

  lemma BlockRoundTrip(x: byte, y: byte, z: byte)
    ensures IsFullQuantum(EncodeBlock(x, y, z)) && IsFinalQuantum(EncodeBlock(x, y, z))
    ensures DecodeQuantum(EncodeBlock(x, y, z)) == [x, y, z]
  {
    var q := EncodeBlock(x, y, z);
    SymbolRoundTrip(x / 4);
    SymbolRoundTrip((x % 4) * 16 + y / 16);
    SymbolRoundTrip((y % 16) * 4 + z / 64);
    SymbolRoundTrip(z % 64);
    assert SymbolValue(q[1]) / 16 == x % 4 && SymbolValue(q[1]) % 16 == y / 16;
    assert SymbolValue(q[2]) / 4 == y % 16 && SymbolValue(q[2]) % 4 == z / 64;
  }

  lemma OneRoundTrip(x: byte)
    ensures IsFinalQuantum(EncodeOne(x)) && DecodeQuantum(EncodeOne(x)) == [x]
  {
    SymbolRoundTrip(x / 4);
    SymbolRoundTrip((x % 4) * 16);
    assert SymbolValue(EncodeOne(x)[1]) / 16 == x % 4;
  }

  lemma TwoRoundTrip(x: byte, y: byte)
    ensures IsFinalQuantum(EncodeTwo(x, y)) && DecodeQuantum(EncodeTwo(x, y)) == [x, y]
  {
    var q := EncodeTwo(x, y);
    SymbolRoundTrip(x / 4);
    SymbolRoundTrip((x % 4) * 16 + y / 16);
    SymbolRoundTrip((y % 16) * 4);
    assert SymbolValue(q[1]) / 16 == x % 4 && SymbolValue(q[1]) % 16 == y / 16;
    assert SymbolValue(q[2]) / 4 == y % 16;
  }

  /** A group of three bytes in front of the rest decodes as the rest does, behind them. */
  lemma DecodeEncodeStep(b: seq<byte>)
    requires |b| > 3
    requires WellFormed(Encode(b[3..])) && Decode(Encode(b[3..])) == b[3..]
    ensures WellFormed(Encode(b)) && Decode(Encode(b)) == b
  {
    var s := Encode(b);
    var q := EncodeBlock(b[0], b[1], b[2]);
    BlockRoundTrip(b[0], b[1], b[2]);
    assert s == q + Encode(b[3..]);
    assert s[..4] == q;
    assert s[4..] == Encode(b[3..]);
    assert |s| > 4;
    assert Decode(s) == [b[0], b[1], b[2]] + b[3..];
    SplitFront(b);
  }

  lemma SplitFront(b: seq<byte>)
    requires |b| >= 3
    ensures b == [b[0], b[1], b[2]] + b[3..]
  {
  }

  /** Decoding the base 64 text of any bytes gives those bytes back. */
  lemma {:induction false} DecodeEncode(b: seq<byte>)
    ensures WellFormed(Encode(b))
    ensures Decode(Encode(b)) == b
    decreases |b|
  {
    if 0 < |b| <= 3 {
      DecodeEncodeShort(b);
    } else if |b| > 3 {
      DecodeEncode(b[3..]);
      DecodeEncodeStep(b);
    }
  }

  lemma DecodeEncodeShort(b: seq<byte>)
    requires 0 < |b| <= 3
    ensures WellFormed(Encode(b)) && Decode(Encode(b)) == b
  {
    if |b| == 1 {
      DecodeEncodeOne(b);
    } else if |b| == 2 {
      DecodeEncodeTwo(b);
    } else {
      DecodeEncodeThree(b);
    }
  }

  lemma DecodeEncodeOne(b: seq<byte>)
    requires |b| == 1
    ensures WellFormed(Encode(b)) && Decode(Encode(b)) == b
  {
    OneRoundTrip(b[0]);
    assert Encode(b) == EncodeOne(b[0]);
    assert b == [b[0]];
  }

  lemma DecodeEncodeTwo(b: seq<byte>)
    requires |b| == 2
    ensures WellFormed(Encode(b)) && Decode(Encode(b)) == b
  {
    TwoRoundTrip(b[0], b[1]);
    assert Encode(b) == EncodeTwo(b[0], b[1]);
    assert b == [b[0], b[1]];
  }

  lemma DecodeEncodeThree(b: seq<byte>)
    requires |b| == 3
    ensures WellFormed(Encode(b)) && Decode(Encode(b)) == b
  {
    var q := EncodeBlock(b[0], b[1], b[2]);
    BlockRoundTrip(b[0], b[1], b[2]);
    assert b[3..] == [];
    assert Encode(b) == q + Encode(b[3..]);
    assert q + "" == q;
    assert Decode(q) == DecodeQuantum(q);
    assert b == [b[0], b[1], b[2]];
  }
}
