/** The hexadecimal codec of the monitor (src/start.c:48-77): formatting a
    nibble, byte or word as upper-case ASCII hex, and the lenient parser that
    reads a null-terminated hex string into a 16-bit word. */
module HexCodec {
  import opened MachineTypes
  import opened CStrings

  predicate IsUpperHexDigit(c: char) {
    '0' <= c <= '9' || 'A' <= c <= 'F'
  }

  predicate IsHexDigit(c: char) {
    IsUpperHexDigit(c) || 'a' <= c <= 'f'
  }

  /** parse_hex_4: the value of a hex digit of either case; any other character reads as 0. */
  function ParseHex4(c: char): (d: Nibble)
    ensures d != 0 <==> IsHexDigit(c) && c != '0'
  {
    if '0' <= c <= '9' then c as int - '0' as int
    else if 'a' <= c <= 'f' then c as int - ('a' as int - 10)
    else if 'A' <= c <= 'F' then c as int - ('A' as int - 10)
    else 0
  }

  /** put_hex_4: the character for a nibble (its properties are in PutHex4Digit). */
  function PutHex4(v: Nibble): char
  {
    if v < 10 then (v + '0' as int) as char else (v + 'A' as int - 10) as char
  }

  /** put_hex_8: two upper-case digits, high nibble first (see PutHex8Digits). */
  function PutHex8(v: Byte): (s: seq<char>)
    ensures |s| == 2
  {
    [PutHex4(v / 16), PutHex4(v % 16)]
  }

  /** put_hex_16: four upper-case digits, high byte first (see PutHex16Digits). */
  function PutHex16(v: Word): (s: seq<char>)
    ensures |s| == 4
  {
    PutHex8(v / 256) + PutHex8(v % 256)
  }

  /** A nibble becomes one upper-case digit, decimal for 0-9 and A-F for 10-15,
      which parse_hex_4 reads back as the same nibble. */
  lemma PutHex4Digit(v: Nibble)
    ensures IsUpperHexDigit(PutHex4(v))
    ensures v < 10 <==> '0' <= PutHex4(v) <= '9'
    ensures ParseHex4(PutHex4(v)) == v
  {
  }

  /** The two digits of put_hex_8 are the high then the low nibble of the byte. */
  lemma PutHex8Digits(v: Byte)
    ensures IsUpperHexDigit(PutHex8(v)[0]) && IsUpperHexDigit(PutHex8(v)[1])
    ensures ParseHex4(PutHex8(v)[0]) * 16 + ParseHex4(PutHex8(v)[1]) == v
  {
    PutHex4Digit(v / 16);
    PutHex4Digit(v % 16);
  }

  /** The four digits of put_hex_16 are the word's nibbles, most significant first. */
  lemma PutHex16Digits(v: Word)
    ensures forall i :: 0 <= i < 4 ==> IsUpperHexDigit(PutHex16(v)[i])
    ensures ParseHex4(PutHex16(v)[0]) * 4096 + ParseHex4(PutHex16(v)[1]) * 256
          + ParseHex4(PutHex16(v)[2]) * 16 + ParseHex4(PutHex16(v)[3]) == v
  {
    PutHex8Digits(v / 256);
    PutHex8Digits(v % 256);
  }

  /** The word parse_hex_16 computes for the characters `s`: each digit is shifted
      in from the right, `out = (out * 16 + digit) mod 2^16`. */
  function ParsedWord(s: seq<char>): Word
  {
    if s == [] then 0
    else (ParsedWord(s[..|s| - 1]) * 16 + ParseHex4(s[|s| - 1])) % WordModulus
  }

  /** The unbounded value of the digits of `s`, read as a base-16 numeral. */
  function DigitsValue(s: seq<char>): nat
  {
    if s == [] then 0 else DigitsValue(s[..|s| - 1]) * 16 + ParseHex4(s[|s| - 1])
  }

  lemma ShiftCongruence(x: int, y: int, d: int)
    requires x % WordModulus == y % WordModulus
    ensures (x * 16 + d) % WordModulus == (y * 16 + d) % WordModulus
  {
    var qx, qy := x / WordModulus, y / WordModulus;
    var r := x % WordModulus;
    assert x == qx * WordModulus + r && y == qy * WordModulus + r;
    assert x * 16 + d == (qx * 16) * WordModulus + (r * 16 + d);
    assert y * 16 + d == (qy * 16) * WordModulus + (r * 16 + d);
  }

  /** The 16-bit fold keeps exactly the value of the digits modulo 2^16. */
  lemma {:induction false} ParsedWordIsValueMod(s: seq<char>)
    ensures ParsedWord(s) == DigitsValue(s) % WordModulus
  {
    if s != [] {
      var init := s[..|s| - 1];
      ParsedWordIsValueMod(init);
      assert ParsedWord(init) % WordModulus == DigitsValue(init) % WordModulus;
      ShiftCongruence(ParsedWord(init), DigitsValue(init), ParseHex4(s[|s| - 1]));
    }
  }

  /** 16 to the power `n`: the weight of a digit `n` places from the right. */
  function Pow16(n: nat): (r: nat)
    ensures r >= 1
  {
    if n == 0 then 1 else 16 * Pow16(n - 1)
  }

  lemma {:induction false} Pow16Split(n: nat)
    requires n >= 4
    ensures Pow16(n) == Pow16(n - 4) * WordModulus
  {
    if n > 4 {
      Pow16Split(n - 1);
    }
  }

  lemma ModMultiple(k: int, v: int)
    ensures (k * WordModulus + v) % WordModulus == v % WordModulus
  {
  }

  lemma ShiftDistributes(x: int, q: int, v: int, d: int)
    ensures (x * q + v) * 16 + d == x * (16 * q) + (v * 16 + d)
  {
  }

  lemma ScaledVanish(a: int, x: int, y: int, v: int)
    requires a == x * (y * WordModulus) + v
    ensures a % WordModulus == v % WordModulus
  {
    assert x * (y * WordModulus) == (x * y) * WordModulus;
    ModMultiple(x * y, v);
  }

  /** Digits written in front of `s` add their value scaled by 16 to the power |s|. */
  lemma {:induction false} DigitsAppend(p: seq<char>, s: seq<char>)
    ensures DigitsValue(p + s) == DigitsValue(p) * Pow16(|s|) + DigitsValue(s)
  {
    if s == [] {
      assert p + s == p;
    } else {
      var init, c := s[..|s| - 1], s[|s| - 1];
      var ps := p + s;
      assert ps[..|ps| - 1] == p + init && ps[|ps| - 1] == c;
      DigitsAppend(p, init);
      ShiftDistributes(DigitsValue(p), Pow16(|init|), DigitsValue(init), ParseHex4(c));
    }
  }

  /** Digits more than four places from the right do not change the value modulo 2^16. */
  lemma HighDigitsVanish(p: seq<char>, s: seq<char>)
    requires |s| >= 4
    ensures DigitsValue(p + s) % WordModulus == DigitsValue(s) % WordModulus
  {
    DigitsAppend(p, s);
    Pow16Split(|s|);
    ScaledVanish(DigitsValue(p + s), DigitsValue(p), Pow16(|s| - 4), DigitsValue(s));
  }

  /** parse_hex_16 keeps only the last four digits: anything before them is lost to the
      16-bit shift. */
  lemma LastFourDigits(p: seq<char>, s: seq<char>)
    requires |s| >= 4
    ensures ParsedWord(p + s) == ParsedWord(s)
  {
    ParsedWordIsValueMod(p + s);
    ParsedWordIsValueMod(s);
    HighDigitsVanish(p, s);
  }

  /** Four characters parse to their positional base-16 value: no wrap-around yet. */
  lemma ParsedFour(s: seq<char>)
    requires |s| == 4
    ensures ParsedWord(s) == ParseHex4(s[0]) * 4096 + ParseHex4(s[1]) * 256 + ParseHex4(s[2]) * 16 + ParseHex4(s[3])
  {
    var a: int, b: int, c: int, d: int := ParseHex4(s[0]), ParseHex4(s[1]), ParseHex4(s[2]), ParseHex4(s[3]);
    assert s[..3][..2] == s[..2] && s[..2][..1] == s[..1] && s[..1][..0] == [];
    assert ParsedWord(s[..1]) == a;
    assert ParsedWord(s[..2]) == a * 16 + b;
    assert ParsedWord(s[..3]) == a * 256 + b * 16 + c;
  }

  /** Parsing the four digits put_hex_16 emits gives back the word. */
  lemma WordRoundTrip(v: Word)
    ensures ParsedWord(PutHex16(v)) == v
  {
    ParsedFour(PutHex16(v));
    PutHex16Digits(v);
  }

  /** On the digits it emits, parse_hex_4 is undone by put_hex_4. */
  lemma PutHex4OfParse(c: char)
    requires IsUpperHexDigit(c)
    ensures PutHex4(ParseHex4(c)) == c
  {
  }

  /** Lower-case digits parse like their upper-case forms. */
  lemma ParseHex4IgnoresCase(c: char)
    requires 'a' <= c <= 'f'
    ensures ParseHex4(c) == ParseHex4((c as int - 32) as char) >= 10
  {
  }

  lemma PutHex8OfDigits(x: char, y: char)
    requires IsUpperHexDigit(x) && IsUpperHexDigit(y)
    ensures PutHex8(ParseHex4(x) * 16 + ParseHex4(y)) == [x, y]
  {
    var h: int, l: int := ParseHex4(x), ParseHex4(y);
    assert (h * 16 + l) / 16 == h && (h * 16 + l) % 16 == l;
    PutHex4OfParse(x);
    PutHex4OfParse(y);
  }

  lemma ParsedFourAsBytes(s: seq<char>)
    requires |s| == 4
    ensures ParsedWord(s) == (ParseHex4(s[0]) * 16 + ParseHex4(s[1])) * 256 + (ParseHex4(s[2]) * 16 + ParseHex4(s[3]))
  {
    ParsedFour(s);
  }

  lemma BytesOfDigits(s: seq<char>)
    requires |s| == 4 && forall i :: 0 <= i < 4 ==> IsUpperHexDigit(s[i])
    ensures PutHex8(ParseHex4(s[0]) * 16 + ParseHex4(s[1])) + PutHex8(ParseHex4(s[2]) * 16 + ParseHex4(s[3])) == s
  {
    PutHex8OfDigits(s[0], s[1]);
    PutHex8OfDigits(s[2], s[3]);
    assert [s[0], s[1]] + [s[2], s[3]] == s;
  }

  lemma SplitWord(w: Word, hi: Byte, lo: Byte)
    requires w == hi * 256 + lo
    ensures PutHex16(w) == PutHex8(hi) + PutHex8(lo)
  {
    assert w / 256 == hi && w % 256 == lo;
  }

  /** Four upper-case hex digits are the canonical form: parsing then formatting
      reproduces them. */
  lemma CanonicalRoundTrip(s: seq<char>)
    requires |s| == 4 && forall i :: 0 <= i < 4 ==> IsUpperHexDigit(s[i])
    ensures PutHex16(ParsedWord(s)) == s
  {
    ParsedFourAsBytes(s);
    SplitWord(ParsedWord(s), ParseHex4(s[0]) * 16 + ParseHex4(s[1]), ParseHex4(s[2]) * 16 + ParseHex4(s[3]));
    BytesOfDigits(s);
  }

  /** The lenient parser on a few inputs: the empty string and non-digits read as 0,
      four digits of either case give their value, and a fifth digit shifts the leading
      one out. */
  lemma ParsedWordExamples()
    ensures ParsedWord("") == 0
    ensures ParsedWord("x?") == 0
    ensures ParsedWord("1a2B") == 0x1A2B
    ensures ParsedWord("10000") == 0
  {
    assert "x?"[..1] == "x" && "x"[..0] == "";
    ParsedFour("1a2B");
    ParsedFour("0000");
    LastFourDigits("1", "0000");
    assert "1" + "0000" == "10000";
  }

  /** On `u16` bits, the `out <<= 4; out |= digit` of parse_hex_16 is a multiplication
      by 16 and an addition: the shift clears the low nibble the digit fills. */
  lemma ShiftOrBits(x: bv16, d: bv16)
    requires d < 16
    ensures (x << 4) | d == x * 16 + d
  {
  }

  /** The same step on integers, the form ParseHex16 uses. */
  lemma ShiftOr(x: Word, d: Nibble)
    ensures (x * 16) % WordModulus + d == (x * 16 + d) % WordModulus
  {
    assert x * 16 == (x / 4096) * WordModulus + (x % 4096) * 16;
  }

  /** parse_hex_16 (src/start.c:69-77) on the string starting at `from` in `buf`.
      Its `u8` index would never end on strings of 256 characters or more. */
  method ParseHex16(buf: seq<char>, from: nat) returns (out: Word)
    requires Terminated(buf, from) && StrLen(buf, from) < 256
    ensures out == ParsedWord(CStr(buf, from))
  {
    var i := 0;
    out := 0;
    while buf[from + i] != '\0'
      invariant i <= StrLen(buf, from)
      invariant out == ParsedWord(buf[from..from + i])
      decreases StrLen(buf, from) - i
    {
      var d := ParseHex4(buf[from + i]);
      ShiftOr(out, d);
      out := (out * 16) % WordModulus;
      out := out + d;
      assert buf[from..from + i + 1][..i] == buf[from..from + i];
      i := i + 1;
    }
  }
}
