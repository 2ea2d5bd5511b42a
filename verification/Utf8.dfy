/** UTF-8 as the host's Buffer applies it: every text encodes, and every byte
    string decodes, a malformed sequence becoming one U+FFFD per maximal
    well-formed prefix. */
module Utf8 {
  type Byte = b: int | 0 <= b < 256
  type Bytes = seq<Byte>

  const BOM: char := '\U{FEFF}'
  const REPLACEMENT: char := '\U{FFFD}'

  function EncodeChar(c: char): (bs: Bytes)
    ensures 1 <= |bs| <= 4
  {
    var v := c as int;
    if v < 0x80 then [v]
    else if v < 0x800 then [0xC0 + v / 64, 0x80 + v % 64]
    else if v < 0x1_0000 then [0xE0 + v / 4096, 0x80 + v / 64 % 64, 0x80 + v % 64]
    else [0xF0 + v / 0x4_0000, 0x80 + v / 4096 % 64, 0x80 + v / 64 % 64, 0x80 + v % 64]
  }

  function Encode(text: string): (bs: Bytes)
    ensures text == [] <==> bs == []
  {
    if text == [] then [] else EncodeChar(text[0]) + Encode(text[1..])
  }

  predicate Continues(bs: Bytes, i: nat, low: Byte, high: Byte) {
    i < |bs| && low <= bs[i] <= high
  }

  function Six(b: Byte): int {
    b - 0x80
  }

  /** The first decoded character and how many bytes it consumed. */
  function DecodeOne(bs: Bytes): (r: (char, nat))
    requires bs != []
    ensures 1 <= r.1 <= |bs|
  {
    var b: int := bs[0];
    if b < 0x80 then (b as char, 1)
    else if 0xC2 <= b <= 0xDF then
      if Continues(bs, 1, 0x80, 0xBF) then (((b - 0xC0) * 64 + Six(bs[1])) as char, 2)
      else (REPLACEMENT, 1)
    else if 0xE0 <= b <= 0xEF then
      var low := if b == 0xE0 then 0xA0 else 0x80;
      var high := if b == 0xED then 0x9F else 0xBF;
      if !Continues(bs, 1, low, high) then (REPLACEMENT, 1)
      else if !Continues(bs, 2, 0x80, 0xBF) then (REPLACEMENT, 2)
      else (((b - 0xE0) * 4096 + Six(bs[1]) * 64 + Six(bs[2])) as char, 3)
    else if 0xF0 <= b <= 0xF4 then
      var low := if b == 0xF0 then 0x90 else 0x80;
      var high := if b == 0xF4 then 0x8F else 0xBF;
      if !Continues(bs, 1, low, high) then (REPLACEMENT, 1)
      else if !Continues(bs, 2, 0x80, 0xBF) then (REPLACEMENT, 2)
      else if !Continues(bs, 3, 0x80, 0xBF) then (REPLACEMENT, 3)
      else (((b - 0xF0) * 0x4_0000 + Six(bs[1]) * 4096 + Six(bs[2]) * 64 + Six(bs[3])) as char, 4)
    else (REPLACEMENT, 1)
  }

  function Decode(bs: Bytes): string
    decreases |bs|
  {
    if bs == [] then "" else
      var (c, n) := DecodeOne(bs);
      [c] + Decode(bs[n..])
  }

  lemma TwoByteSplit(v: int)
    requires 0x80 <= v < 0x800
    ensures v == v / 64 * 64 + v % 64 && 2 <= v / 64 < 32
  {
  }

  lemma ThreeByteSplit(v: int)
    requires 0x800 <= v < 0x1_0000
    ensures v == v / 4096 * 4096 + v / 64 % 64 * 64 + v % 64
    ensures v / 4096 < 16
    ensures v / 4096 == 0 ==> v / 64 % 64 >= 0x20
    ensures v / 4096 == 13 && v < 0xD800 ==> v / 64 % 64 < 0x20
  {
    assert v / 64 == v / 4096 * 64 + v / 64 % 64;
  }

  lemma FourByteSplit(v: int)
    requires 0x1_0000 <= v < 0x11_0000
    ensures v == v / 0x4_0000 * 0x4_0000 + v / 4096 % 64 * 4096 + v / 64 % 64 * 64 + v % 64
    ensures v / 0x4_0000 <= 4
    ensures v / 0x4_0000 == 0 ==> v / 4096 % 64 >= 0x10
    ensures v / 0x4_0000 == 4 ==> v / 4096 % 64 < 0x10
  {
    assert v / 64 == v / 4096 * 64 + v / 64 % 64;
    assert v / 4096 == v / 0x4_0000 * 64 + v / 4096 % 64;
  }

  lemma DecodeOneOfEncoded(c: char, rest: Bytes)
    ensures DecodeOne(EncodeChar(c) + rest) == (c, |EncodeChar(c)|)
  {
    var v := c as int;
    var bs := EncodeChar(c) + rest;
    assert forall i | 0 <= i < |EncodeChar(c)| :: bs[i] == EncodeChar(c)[i];
    if v < 0x80 {
    } else if v < 0x800 {
      TwoByteSplit(v);
    } else if v < 0x1_0000 {
      ThreeByteSplit(v);
    } else {
      FourByteSplit(v);
    }
  }

  /** Decoding undoes encoding, for every text. */
  lemma {:induction false} DecodeEncode(text: string)
    ensures Decode(Encode(text)) == text
  {
    if text != [] {
      var first, rest := EncodeChar(text[0]), Encode(text[1..]);
      DecodeOneOfEncoded(text[0], rest);
      assert (first + rest)[|first|..] == rest;
      DecodeEncode(text[1..]);
    }
  }

  lemma TwoBytesBack(b0: Byte, b1: Byte)
    requires 0xC2 <= b0 <= 0xDF && 0x80 <= b1 <= 0xBF
    ensures var v := (b0 - 0xC0) * 64 + Six(b1); 0x80 <= v < 0x800 && v / 64 == b0 - 0xC0 && v % 64 == Six(b1)
  {
  }

  lemma ThreeBytesBack(b0: Byte, b1: Byte, b2: Byte)
    requires 0xE0 <= b0 <= 0xEF && 0x80 <= b1 <= 0xBF && 0x80 <= b2 <= 0xBF
    requires (b0 == 0xE0 ==> b1 >= 0xA0) && (b0 == 0xED ==> b1 <= 0x9F)
    ensures var v := (b0 - 0xE0) * 4096 + Six(b1) * 64 + Six(b2);
            0x800 <= v < 0x1_0000 && v / 4096 == b0 - 0xE0 && v / 64 % 64 == Six(b1) && v % 64 == Six(b2)
  {
    var v := (b0 - 0xE0) * 4096 + Six(b1) * 64 + Six(b2);
    assert v / 64 == (b0 - 0xE0) * 64 + Six(b1);
  }

  lemma FourBytesBack(b0: Byte, b1: Byte, b2: Byte, b3: Byte)
    requires 0xF0 <= b0 <= 0xF4 && 0x80 <= b1 <= 0xBF && 0x80 <= b2 <= 0xBF && 0x80 <= b3 <= 0xBF
    requires (b0 == 0xF0 ==> b1 >= 0x90) && (b0 == 0xF4 ==> b1 <= 0x8F)
    ensures var v := (b0 - 0xF0) * 0x4_0000 + Six(b1) * 4096 + Six(b2) * 64 + Six(b3);
            0x1_0000 <= v < 0x11_0000 && v / 0x4_0000 == b0 - 0xF0 && v / 4096 % 64 == Six(b1)
            && v / 64 % 64 == Six(b2) && v % 64 == Six(b3)
  {
    var v := (b0 - 0xF0) * 0x4_0000 + Six(b1) * 4096 + Six(b2) * 64 + Six(b3);
    assert v / 64 == (b0 - 0xF0) * 4096 + Six(b1) * 64 + Six(b2);
    assert v / 4096 == (b0 - 0xF0) * 64 + Six(b1);
  }

  lemma PrefixDecodes(d: char, bs: Bytes)
    requires EncodeChar(d) <= bs
    ensures bs != [] && DecodeOne(bs) == (d, |EncodeChar(d)|)
  {
    DecodeOneOfEncoded(d, bs[|EncodeChar(d)|..]);
    assert bs == EncodeChar(d) + bs[|EncodeChar(d)|..];
  }

  lemma DecodedOrNot(bs: Bytes)
    requires bs != []
    ensures var (c, n) := DecodeOne(bs); bs[..n] == EncodeChar(c) || (c == REPLACEMENT && n <= 3)
  {
    var (c, n) := DecodeOne(bs);
    var b := bs[0];
    if 0xC2 <= b <= 0xDF && n == 2 {
      TwoBytesBack(b, bs[1]);
    } else if 0xE0 <= b <= 0xEF && n == 3 {
      ThreeBytesBack(b, bs[1], bs[2]);
    } else if 0xF0 <= b <= 0xF4 && n == 4 {
      FourBytesBack(b, bs[1], bs[2], bs[3]);
    }
  }

  /** A decoded character stands for exactly the bytes that encode it, or is the
      replacement of bytes that do not begin with any character's encoding. */
  lemma DecodedOrReplaced(bs: Bytes)
    requires bs != []
    ensures var (c, n) := DecodeOne(bs);
            (bs[..n] == EncodeChar(c)) || (c == REPLACEMENT && n <= 3 && forall d :: !(EncodeChar(d) <= bs))
  {
    DecodedOrNot(bs);
    forall d | EncodeChar(d) <= bs
      ensures bs[..DecodeOne(bs).1] == EncodeChar(DecodeOne(bs).0)
    {
      PrefixDecodes(d, bs);
    }
  }

  lemma EncodeInjective(a: string, b: string)
    requires Encode(a) == Encode(b)
    ensures a == b
  {
    DecodeEncode(a);
    DecodeEncode(b);
  }

  predicate StartsWithBom(text: string) {
    text != [] && text[0] == BOM
  }

  function StripBom(text: string): string {
    if StartsWithBom(text) then text[1..] else text
  }
}
