/** Bytes and JavaScript strings.

    A JavaScript string is modelled as a Dafny `string`, a sequence of Unicode
    scalar values. What JavaScript exposes of a string is derived from it:
    its UTF-16 code units (`charCodeAt`), its UTF-8 bytes (`TextEncoder`,
    `Buffer.from(s, "utf8")`), the characters `\s` and `trim()` treat as
    white space. */
module Text {

  /** One element of a `Uint8Array`. */
  type byte = b: int | 0 <= b < 256

  predicate StartsWith(s: string, prefix: string)
  {
    |prefix| <= |s| && s[..|prefix|] == prefix
  }

  /** The characters matched by the regular-expression class `\s`, which are also
      the ones `String.prototype.trim` removes: WhiteSpace and LineTerminator of
      ECMAScript (tab, LF, VT, FF, CR, space, NBSP, the Zs characters, LS, PS, BOM). */
  predicate IsWhitespace(c: char)
  {
    c == '\t' || c == '\n' || c == '\U{000B}' || c == '\U{000C}' || c == '\r' || c == ' '
    || c == '\U{00A0}' || c == '\U{1680}' || ('\U{2000}' <= c <= '\U{200A}')
    || c == '\U{2028}' || c == '\U{2029}' || c == '\U{202F}' || c == '\U{205F}'
    || c == '\U{3000}' || c == '\U{FEFF}'
  }

  predicate AllWhitespace(s: string)
  {
    forall i | 0 <= i < |s| :: IsWhitespace(s[i])
  }

  predicate NoWhitespace(s: string)
  {
    forall i | 0 <= i < |s| :: !IsWhitespace(s[i])
  }

  /** `s.replace(/\s+/g, "")`: every white-space character is dropped; text without
      white space is left as it is. */
  function RemoveWhitespace(s: string): (r: string)
    ensures NoWhitespace(r)
    ensures |r| <= |s|
    ensures NoWhitespace(s) ==> r == s
  {
    if s == [] then []
    else if IsWhitespace(s[0]) then RemoveWhitespace(s[1..])
    else [s[0]] + RemoveWhitespace(s[1..])
  }

  /** Every character other than white space is kept, as often as it occurs. */
  lemma {:induction false} RemoveWhitespaceCounts(s: string, c: char)
    requires !IsWhitespace(c)
    ensures multiset(RemoveWhitespace(s))[c] == multiset(s)[c]
  {
    if s != [] {
      assert s == [s[0]] + s[1..];
      RemoveWhitespaceCounts(s[1..], c);
    }
  }

  /** A single character is dropped exactly when it is white space. */
  lemma RemoveWhitespaceChar(c: char)
    ensures RemoveWhitespace([c]) == if IsWhitespace(c) then [] else [c]
  {
    assert [c][1..] == [];
  }

  /** The order of what is kept is the order of the text: white space is removed
      piece by piece. */
  lemma {:induction false} RemoveWhitespaceAppend(s: string, t: string)
    ensures RemoveWhitespace(s + t) == RemoveWhitespace(s) + RemoveWhitespace(t)
  {
    if s == [] {
      assert s + t == t;
    } else {
      assert (s + t)[0] == s[0];
      assert (s + t)[1..] == s[1..] + t;
      RemoveWhitespaceAppend(s[1..], t);
    }
  }

  /** Text without `-` does not start with a prefix that begins with `-`. */
  lemma NotStartsWithDash(s: string, prefix: string)
    requires '-' !in s && prefix != [] && prefix[0] == '-'
    ensures !StartsWith(s, prefix)
  {
    if |prefix| <= |s| {
      assert s[0] in s;
      assert s[..|prefix|][0] == s[0];
    }
  }

  /** Leading white space removed, as the first half of `trim()`. */
  function TrimStart(s: string): (r: string)
    ensures |r| <= |s| && r == s[|s| - |r|..]
    ensures r == [] || !IsWhitespace(r[0])
    ensures AllWhitespace(s[..|s| - |r|])
  {
    if s != [] && IsWhitespace(s[0]) then TrimStart(s[1..]) else s
  }

  /** Trailing white space removed, as the second half of `trim()`. */
  function TrimEnd(s: string): (r: string)
    ensures |r| <= |s| && r == s[..|r|]
    ensures r == [] || !IsWhitespace(r[|r| - 1])
    ensures AllWhitespace(s[|r|..])
  {
    if s != [] && IsWhitespace(s[|s| - 1]) then TrimEnd(s[..|s| - 1]) else s
  }

  /** `String.prototype.trim`. */
  function Trim(s: string): (r: string)
    ensures |r| <= |s|
    ensures r == [] || (!IsWhitespace(r[0]) && !IsWhitespace(r[|r| - 1]))
    ensures NoWhitespace(s) ==> r == s
    ensures exists i | 0 <= i <= |s| - |r| :: TrimmedAt(s, r, i)
  {
    TrimmedAtOffset(s);
    TrimEnd(TrimStart(s))
  }

  /** What `trim()` keeps starts where the leading white space ends. */
  lemma TrimmedAtOffset(s: string)
    ensures TrimmedAt(s, TrimEnd(TrimStart(s)), |s| - |TrimStart(s)|)
  {
    var t := TrimStart(s);
    var r := TrimEnd(t);
    var i := |s| - |t|;
    assert r == s[i..i + |r|];
    assert s[i + |r|..] == t[|r|..];
  }

  /** `r` is the part of `s` at offset i, and everything around it is white space. */
  predicate TrimmedAt(s: string, r: string, i: int)
  {
    && 0 <= i <= |s| - |r|
    && r == s[i..i + |r|]
    && AllWhitespace(s[..i])
    && AllWhitespace(s[i + |r|..])
  }

  lemma TrimNoWhitespace(s: string)
    requires NoWhitespace(s)
    ensures Trim(s) == s
  {
  }

  /** A string that starts with a prefix whose last character is not white space
      still starts with it once trimmed at the end. */
  lemma {:induction false} TrimEndKeepsPrefix(s: string, prefix: string)
    requires StartsWith(s, prefix) && prefix != [] && !IsWhitespace(prefix[|prefix| - 1])
    ensures StartsWith(TrimEnd(s), prefix)
  {
    if s != [] && IsWhitespace(s[|s| - 1]) {
      assert |s| > |prefix|;
      assert s[..|s| - 1][..|prefix|] == prefix;
      TrimEndKeepsPrefix(s[..|s| - 1], prefix);
    }
  }

  /** A string starting with a non-blank prefix is recognised by `trim().startsWith`. */
  lemma TrimKeepsPrefix(s: string, prefix: string)
    requires StartsWith(s, prefix) && prefix != []
    requires !IsWhitespace(prefix[0]) && !IsWhitespace(prefix[|prefix| - 1])
    ensures StartsWith(Trim(s), prefix)
  {
    assert s[0] == prefix[0];
    assert TrimStart(s) == s;
    TrimEndKeepsPrefix(s, prefix);
  }

  // ----- UTF-16 code units (what `charCodeAt` reads) -----

  /** The one or two UTF-16 code units of a character. */
  function Utf16Char(c: char): (r: seq<int>)
    ensures |r| == (if c as int < 0x10000 then 1 else 2)
    ensures forall i | 0 <= i < |r| :: 0 <= r[i] < 0x10000
    ensures |r| == 1 ==> r[0] == c as int
    ensures |r| == 2 ==>
      && 0xD800 <= r[0] < 0xDC00 && 0xDC00 <= r[1] < 0xE000
      && 0x10000 + (r[0] - 0xD800) * 0x400 + (r[1] - 0xDC00) == c as int
  {
    var v := c as int;
    if v < 0x10000 then [v]
    else [0xD800 + (v - 0x10000) / 0x400, 0xDC00 + (v - 0x10000) % 0x400]
  }

  /** The code units `s.charCodeAt(0), s.charCodeAt(1), …` of a string. */
  function Utf16(s: string): (r: seq<int>)
    ensures |s| <= |r| <= 2 * |s|
    ensures forall i | 0 <= i < |r| :: 0 <= r[i] < 0x10000
  {
    if s == [] then [] else Utf16Char(s[0]) + Utf16(s[1..])
  }

  /** The code units of a concatenation are those of its parts, one after the other. */
  lemma {:induction false} Utf16Append(s: string, t: string)
    ensures Utf16(s + t) == Utf16(s) + Utf16(t)
  {
    if s == [] {
      assert s + t == t;
    } else {
      assert (s + t)[0] == s[0];
      assert (s + t)[1..] == s[1..] + t;
      Utf16Append(s[1..], t);
    }
  }

  // ----- UTF-8 (what `TextEncoder.encode` and `Buffer.from(s, "utf8")` produce) -----

  /** The UTF-8 encoding of one scalar value (section 3 of RFC 3629). */
  function Utf8Char(c: char): (r: seq<byte>)
    ensures 1 <= |r| <= 4
  {
    var v := c as int;
    if v < 0x80 then [v]
    else if v < 0x800 then [0xC0 + v / 64, 0x80 + v % 64]
    else if v < 0x10000 then [0xE0 + v / 4096, 0x80 + (v / 64) % 64, 0x80 + v % 64]
    else [0xF0 + v / 262144, 0x80 + (v / 4096) % 64, 0x80 + (v / 64) % 64, 0x80 + v % 64]
  }

  function Utf8(s: string): (r: seq<byte>)
    ensures |s| <= |r| <= 4 * |s|
  {
    if s == [] then [] else Utf8Char(s[0]) + Utf8(s[1..])
  }

  /** How many bytes a UTF-8 sequence with this lead byte has. */
  function SequenceLength(lead: byte): nat
  {
    if lead < 0x80 then 1 else if lead < 0xE0 then 2 else if lead < 0xF0 then 3 else 4
  }

  /** The scalar value a one- to four-byte UTF-8 sequence carries. */
  function CodePoint(bs: seq<byte>): int
    requires 1 <= |bs| <= 4
  {
    var b: seq<int> := bs;
    if |b| == 1 then b[0]
    else if |b| == 2 then (b[0] - 0xC0) * 64 + (b[1] - 0x80)
    else if |b| == 3 then (b[0] - 0xE0) * 4096 + (b[1] - 0x80) * 64 + (b[2] - 0x80)
    else (b[0] - 0xF0) * 262144 + (b[1] - 0x80) * 4096 + (b[2] - 0x80) * 64 + (b[3] - 0x80)
  }

  /** The lead byte tells the length, and the bytes give back the character. */
  lemma Utf8CharDecodes(c: char)
    ensures |Utf8Char(c)| == SequenceLength(Utf8Char(c)[0])
    ensures CodePoint(Utf8Char(c)) == c as int
  {
    var v := c as int;
    if v >= 0x10000 {
      assert v / 64 == (v / 4096) * 64 + (v / 64) % 64;
      assert v / 4096 == (v / 262144) * 64 + (v / 4096) % 64;
    } else if v >= 0x800 {
      assert v / 64 == (v / 4096) * 64 + (v / 64) % 64;
    }
  }

  lemma {:induction false} Utf8Append(s: string, t: string)
    ensures Utf8(s + t) == Utf8(s) + Utf8(t)
  {
    if s == [] {
      assert s + t == t;
    } else {
      assert (s + t)[0] == s[0];
      assert (s + t)[1..] == s[1..] + t;
      Utf8Append(s[1..], t);
    }
  }

  /** Different strings have different UTF-8 encodings. */
  lemma {:induction false} Utf8Injective(s: string, t: string)
    requires Utf8(s) == Utf8(t)
    ensures s == t
  {
    if s == [] || t == [] {
      assert |Utf8(s)| == 0 || |Utf8(t)| == 0;
    } else {
      var e := Utf8(s);
      var a, b := Utf8Char(s[0]), Utf8Char(t[0]);
      Utf8CharDecodes(s[0]);
      Utf8CharDecodes(t[0]);
      assert e == a + Utf8(s[1..]) == b + Utf8(t[1..]);
      assert a[0] == e[0] == b[0];
      assert a == e[..|a|] == b;
      assert Utf8(s[1..]) == e[|a|..] == Utf8(t[1..]);
      Utf8Injective(s[1..], t[1..]);
      assert s == [s[0]] + s[1..];
      assert t == [t[0]] + t[1..];
    }
  }
}
