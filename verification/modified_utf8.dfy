/** Java's "modified UTF-8", as `DataOutputStream.writeUTF` writes the body of
    a string and `DataInputStream.readUTF` reads it back (documented with
    `java.io.DataInput`). It works on UTF-16 code units, not on characters:
    U+0000 becomes the two bytes C0 80, and a supplementary character becomes
    its two surrogates, three bytes each. This is not the UTF-8 of RFC 3629.

    A Dafny `char` is a Unicode scalar value, so a string is first turned into
    UTF-16 code units (`Utf16`) and back (`FromUtf16`). */
module ModifiedUtf8 {
  import opened Wrappers
  import opened Bytes

  type CodeUnit = x: int | 0 <= x < 0x1_0000

  predicate IsHighSurrogate(u: int) { 0xD800 <= u <= 0xDBFF }
  predicate IsLowSurrogate(u: int) { 0xDC00 <= u <= 0xDFFF }

  // ---------------------------------------------------------------------
  // Characters <-> UTF-16 code units
  // ---------------------------------------------------------------------

  /** The UTF-16 code units of one character. */
  function CharUnits(c: char): (r: seq<CodeUnit>)
    ensures 1 <= |r| <= 2
    ensures |r| == 1 <==> (c as int) < 0x1_0000
  {
    var v := c as int;
    if v < 0x1_0000 then [v]
    else [0xD800 + (v - 0x1_0000) / 0x400, 0xDC00 + (v - 0x1_0000) % 0x400]
  }

  /** The UTF-16 form of a string, which is what a Java `String` holds. */
  function Utf16(s: string): (r: seq<CodeUnit>)
    ensures |r| >= |s|
  {
    if |s| == 0 then [] else CharUnits(s[0]) + Utf16(s[1..])
  }

  /** The string whose UTF-16 form is `us`; None when a surrogate is unpaired. */
  function FromUtf16(us: seq<CodeUnit>): (r: Option<string>)
    ensures r.Some? ==> |r.value| <= |us|
    decreases |us|
  {
    if |us| == 0 then Some([])
    else if IsHighSurrogate(us[0]) then
      if |us| >= 2 && IsLowSurrogate(us[1]) then
        var v: int := 0x1_0000 + (us[0] as int - 0xD800) * 0x400 + (us[1] - 0xDC00);
        var rest :- FromUtf16(us[2..]);
        Some([v as char] + rest)
      else None
    else if IsLowSurrogate(us[0]) then None
    else
      var rest :- FromUtf16(us[1..]);
      Some([us[0] as char] + rest)
  }

  lemma {:induction false} FromUtf16OfUtf16(s: string)
    ensures FromUtf16(Utf16(s)) == Some(s)
    decreases |s|
  {
    if |s| > 0 {
      var c := s[0];
      var v := c as int;
      var us := Utf16(s);
      FromUtf16OfUtf16(s[1..]);
      if v < 0x1_0000 {
        assert us[1..] == Utf16(s[1..]);
      } else {
        var hi := 0xD800 + (v - 0x1_0000) / 0x400;
        var lo := 0xDC00 + (v - 0x1_0000) % 0x400;
        assert us[0] == hi && us[1] == lo;
        assert us[2..] == Utf16(s[1..]);
        assert 0x1_0000 + (hi - 0xD800) * 0x400 + (lo - 0xDC00) == v;
      }
      assert s == [c] + s[1..];
    }
  }

  // ---------------------------------------------------------------------
  // Code units <-> modified UTF-8 bytes
  // ---------------------------------------------------------------------

  /** The bytes `writeUTF` emits for one code unit: one byte for
      U+0001..U+007F, two for U+0000 and U+0080..U+07FF, three above. */
  function EncodeUnit(u: CodeUnit): (r: seq<byte>)
    ensures |r| == (if 1 <= u <= 0x7F then 1 else if u <= 0x7FF then 2 else 3)
    ensures forall i :: 0 <= i < |r| ==> r[i] != 0
  {
    if 1 <= u <= 0x7F then [u]
    else if u > 0x7FF then [0xE0 + u / 0x1000, 0x80 + (u / 0x40) % 0x40, 0x80 + u % 0x40]
    else [0xC0 + u / 0x40, 0x80 + u % 0x40]
  }

  function EncodeUnits(us: seq<CodeUnit>): (r: seq<byte>)
    ensures |r| >= |us|
    ensures forall i :: 0 <= i < |r| ==> r[i] != 0
  {
    if |us| == 0 then [] else EncodeUnit(us[0]) + EncodeUnits(us[1..])
  }

  /** The decoding loop of `readUTF` over the body bytes. A byte below 0x80
      is a unit by itself; 110xxxxx and 1110xxxx lead two- and three-byte
      groups whose other bytes must be 10xxxxxx; any other lead byte, or a
      group cut off by the end, is malformed (None). Like the Java code it
      accepts overlong forms and a raw zero byte. */
  function DecodeUnits(bs: seq<byte>): (r: Option<seq<CodeUnit>>)
    ensures r.Some? ==> |r.value| <= |bs|
    decreases |bs|
  {
    if |bs| == 0 then Some([])
    else
      var c := bs[0];
      if c < 0x80 then
        var rest :- DecodeUnits(bs[1..]);
        Some([c] + rest)
      else if c / 16 == 12 || c / 16 == 13 then
        if |bs| < 2 || bs[1] / 64 != 2 then None
        else
          var rest :- DecodeUnits(bs[2..]);
          Some([(c % 32) * 64 + bs[1] % 64] + rest)
      else if c / 16 == 14 then
        if |bs| < 3 || bs[1] / 64 != 2 || bs[2] / 64 != 2 then None
        else
          var rest :- DecodeUnits(bs[3..]);
          Some([(c % 16) * 0x1000 + (bs[1] % 64) * 64 + bs[2] % 64] + rest)
      else None
  }

  lemma DecodeEncodedUnit(u: CodeUnit, tail: seq<byte>)
    ensures DecodeUnits(EncodeUnit(u) + tail) ==
            (match DecodeUnits(tail)
             case None => None
             case Some(rest) => Some([u] + rest))
  {
    if 1 <= u <= 0x7F {
      assert (EncodeUnit(u) + tail)[1..] == tail;
    } else if u > 0x7FF {
      DecodeThreeByteUnit(u, tail);
    } else {
      DecodeTwoByteUnit(u, tail);
    }
  }

  lemma DecodeTwoByteUnit(u: CodeUnit, tail: seq<byte>)
    requires u == 0 || 0x80 <= u <= 0x7FF
    ensures DecodeUnits(EncodeUnit(u) + tail) ==
            (match DecodeUnits(tail)
             case None => None
             case Some(rest) => Some([u] + rest))
  {
    var bs := EncodeUnit(u) + tail;
    assert bs[0] == 0xC0 + u / 0x40 && bs[1] == 0x80 + u % 0x40;
    assert bs[2..] == tail;
    assert bs[0] / 16 == 12 || bs[0] / 16 == 13;
    assert bs[1] / 64 == 2;
    assert (bs[0] as int % 32) * 64 + bs[1] as int % 64 == u;
  }

  lemma DecodeThreeByteUnit(u: CodeUnit, tail: seq<byte>)
    requires u > 0x7FF
    ensures DecodeUnits(EncodeUnit(u) + tail) ==
            (match DecodeUnits(tail)
             case None => None
             case Some(rest) => Some([u] + rest))
  {
    var bs := EncodeUnit(u) + tail;
    var hi, mid, low := u / 0x1000, (u / 0x40) % 0x40, u % 0x40;
    assert bs[0] == 0xE0 + hi && bs[1] == 0x80 + mid && bs[2] == 0x80 + low;
    assert bs[3..] == tail;
    assert bs[0] / 16 == 14 && bs[0] % 16 == hi;
    assert bs[1] / 64 == 2 && bs[1] % 64 == mid;
    assert bs[2] / 64 == 2 && bs[2] % 64 == low;
    assert hi * 0x1000 + mid * 64 + low == u;
  }

  lemma {:induction false} DecodeUnitsOfEncodeUnits(us: seq<CodeUnit>)
    ensures DecodeUnits(EncodeUnits(us)) == Some(us)
    decreases |us|
  {
    if |us| > 0 {
      DecodeUnitsOfEncodeUnits(us[1..]);
      DecodeEncodedUnit(us[0], EncodeUnits(us[1..]));
      assert us == [us[0]] + us[1..];
    }
  }

  /** The body `writeUTF` emits for a string. */
  function Encode(s: string): seq<byte> {
    EncodeUnits(Utf16(s))
  }

  /** The string `readUTF` returns for a body; None when it is malformed or
      holds an unpaired surrogate. */
  function Decode(bs: seq<byte>): Option<string> {
    var us :- DecodeUnits(bs);
    FromUtf16(us)
  }

  /** Decoding what `writeUTF` wrote gives the string back, for every string. */
  lemma DecodeOfEncode(s: string)
    ensures Decode(Encode(s)) == Some(s)
  {
    DecodeUnitsOfEncodeUnits(Utf16(s));
    FromUtf16OfUtf16(s);
  }

  /** A NUL character is written as C0 80 and never as a zero byte. */
  lemma NulIsTwoBytes()
    ensures Encode("\0") == [0xC0, 0x80]
  {
  }

  /** A supplementary character (here U+1F600) is written as two three-byte
      surrogate groups, six bytes, not as RFC 3629's four bytes. */
  lemma SupplementaryIsSixBytes()
    ensures Encode("\U{1F600}") == [0xED, 0xA0, 0xBD, 0xED, 0xB8, 0x80]
  {
  }
}
