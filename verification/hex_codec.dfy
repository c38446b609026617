/** The hex text encoding at the client's boundary: the decoder
    `hexStringToByteArray` and the encoder the client uses for what it reads
    (two lower-case hex digits per byte). */
module HexCodec {
  import opened JavaTypes

  /** What `Character.digit(c, 16)` returns: a digit value, or -1 for "not a digit". */
  type Nibble = d: int | -1 <= d <= 15

  predicate IsHexDigit(c: char)
  {
    '0' <= c <= '9' || 'a' <= c <= 'f' || 'A' <= c <= 'F'
  }

  predicate IsLowerHexDigit(c: char)
  {
    '0' <= c <= '9' || 'a' <= c <= 'f'
  }

  /** ASCII upper case to lower case; every other character is left alone. */
  function LowerChar(c: char): char
  {
    if 'A' <= c <= 'Z' then (c as int + 32) as char else c
  }

  function AsciiLower(s: string): (t: string)
    ensures |t| == |s|
  {
    seq(|s|, i requires 0 <= i < |s| => LowerChar(s[i]))
  }

  /** The lower-case digit for a nibble value. */
  function HexChar(n: int): (c: char)
    requires 0 <= n < 16
    ensures IsLowerHexDigit(c)
  {
    "0123456789abcdef"[n]
  }

  /** `Character.digit(c, 16)` on ASCII: the digit's value in either case, -1 otherwise. */
  function Digit(c: char): (d: Nibble)
    ensures d == -1 <==> !IsHexDigit(c)
  {
    if '0' <= c <= '9' then c as int - '0' as int
    else if 'a' <= c <= 'f' then c as int - 'a' as int + 10
    else if 'A' <= c <= 'F' then c as int - 'A' as int + 10
    else -1
  }

  /** A digit's value names the digit: writing it back gives the character, lower-cased. */
  lemma DigitNamesChar(c: char)
    requires IsHexDigit(c)
    ensures HexChar(Digit(c)) == LowerChar(c)
  {
  }

  /** Digits do not depend on case, for every character. */
  lemma DigitIgnoresCase(c: char)
    ensures Digit(LowerChar(c)) == Digit(c)
  {
  }

  /** Reading back a written digit gives its value. */
  lemma DigitOfHexChar(n: int)
    requires 0 <= n < 16
    ensures Digit(HexChar(n)) == n
  {
  }

  /** `(hi << 4) | lo` computed on 32-bit `int`s, keeping the low 8 bits the cast to `byte` keeps. */
  function PackBits(hi: Nibble, lo: Nibble): int
  {
    Low8((Word32(hi) << 4) | Word32(lo))
  }

  // The lemmas from here to `PackUnderOnes` move small ints into `bv32` and
  // back, one step each, for the proof that `PackBits` computes line 74's byte.

  lemma SmallWordIsCast(d: int)
    requires 0 <= d <= 15
    ensures Word32(d) == d as bv32
  {
  }

  lemma SmallCastValue(d: int)
    requires 0 <= d <= 15
    ensures (d as bv32) as int == d
  {
  }

  lemma SmallCastBound(d: int)
    requires 0 <= d <= 15
    ensures (d as bv32) < 16
  {
  }

  lemma SmallWord(d: int)
    requires 0 <= d <= 15
    ensures Word32(d) as int == d && Word32(d) < 16
  {
    SmallWordIsCast(d);
    SmallCastValue(d);
    SmallCastBound(d);
  }

  lemma AllOnesWord()
    ensures Word32(-1) == 0xFFFF_FFFF
  {
  }

  lemma PackLow8(h: bv32, l: bv32)
    requires h < 16 && l < 16
    ensures ((h << 4) | l) & 0xFF == (h << 4) + l
    ensures ((h << 4) + l) as int == 16 * (h as int) + l as int
  {
  }

  lemma PackUnderOnes(l: bv32)
    requires l < 16
    ensures ((0xFFFF_FFFF as bv32 << 4) | l) & 0xFF == 0xF0 + l
    ensures (0xF0 + l) as int == 240 + l as int
  {
  }

  lemma {:induction false} PackDigits(hi: int, lo: int)
    requires 0 <= hi <= 15 && 0 <= lo <= 15
    ensures PackBits(hi, lo) == 16 * hi + lo
  {
    SmallWord(hi);
    SmallWord(lo);
    PackLow8(Word32(hi), Word32(lo));
  }

  lemma UnsignedOfByte(u: int)
    requires 0 <= u < 256
    ensures Unsigned(ToByte(u)) == u
  {
  }

  /** The low eight bits of `(hi << 4) | lo` in each of the three cases `Character.digit` can produce. */
  lemma PackCases(hi: Nibble, lo: Nibble)
    ensures 0 <= hi && 0 <= lo ==> PackBits(hi, lo) == 16 * hi + lo
    ensures lo == -1 ==> PackBits(hi, lo) == 255
    ensures hi == -1 && 0 <= lo ==> PackBits(hi, lo) == 240 + lo
    ensures 0 <= hi && 0 <= lo ==> Unsigned(ToByte(PackBits(hi, lo))) == 16 * hi + lo
  {
    if 0 <= hi && 0 <= lo {
      PackDigits(hi, lo);
      UnsignedOfByte(16 * hi + lo);
    } else if hi == -1 && 0 <= lo {
      AllOnesWord();
      SmallWord(lo);
      PackUnderOnes(Word32(lo));
    }
  }

  /** `(byte) ((hi << 4) | lo)`, the byte the decoder stores for one pair. Two
      real digits give the byte whose unsigned value is `16 * hi + lo`; a
      non-digit in the low position makes every bit 1, so the byte is -1; a
      non-digit in the high position sets the high four bits, giving `0xF0 | lo`. */
  function CombineNibbles(hi: Nibble, lo: Nibble): (b: JByte)
    ensures 0 <= hi && 0 <= lo ==> b == ToByte(16 * hi + lo) && Unsigned(b) == 16 * hi + lo
    ensures lo == -1 ==> b == -1
    ensures hi == -1 && 0 <= lo ==> b == lo - 16
  {
    PackCases(hi, lo);
    ToByte(PackBits(hi, lo))
  }

  /** The byte decoded from the pair at `2 * i`. */
  function PairByte(s: string, i: nat): JByte
    requires 2 * i + 1 < |s|
  {
    CombineNibbles(Digit(s[2 * i]), Digit(s[2 * i + 1]))
  }

  /** The bytes of the first `n` pairs of an even-length string, in order. */
  function DecodePrefix(s: string, n: nat): (bs: seq<JByte>)
    requires |s| % 2 == 0 && 2 * n <= |s|
    ensures |bs| == n
    ensures forall i :: 0 <= i < n ==> bs[i] == PairByte(s, i)
  {
    if n == 0 then [] else DecodePrefix(s, n - 1) + [PairByte(s, n - 1)]
  }

  /** `hexStringToByteArray`: an odd length throws; otherwise one byte per pair,
      including for pairs that are not hex digits. */
  function HexStringToByteArray(s: string): (r: Result<seq<JByte>>)
    ensures r.Failure? <==> |s| % 2 == 1
    ensures r.Failure? ==> r.error == IllegalArgument
    ensures r.Success? ==> |r.value| == |s| / 2
    ensures r.Success? ==> forall i :: 0 <= i < |r.value| ==> r.value[i] == PairByte(s, i)
  {
    if |s| % 2 == 0 then Success(DecodePrefix(s, |s| / 2)) else Failure(IllegalArgument)
  }

  /** The decoder's loop over the output array, as the Java loop writes it. */
  method DecodeHex(s: string) returns (r: Result<seq<JByte>>)
    ensures r == HexStringToByteArray(s)
  {
    if |s| % 2 == 0 {
      var n := |s| / 2;
      assert 2 * n == |s|;
      var ba: seq<JByte> := [];
      var i := 0;
      while i < n
        invariant 0 <= i <= n
        invariant |ba| == i
        invariant forall k :: 0 <= k < i ==> ba[k] == PairByte(s, k)
      {
        var nibble0 := Digit(s[i * 2]);
        var nibble1 := Digit(s[i * 2 + 1]);
        ba := ba + [CombineNibbles(nibble0, nibble1)];
        i := i + 1;
      }
      assert ba == DecodePrefix(s, n);
      r := Success(ba);
    } else {
      r := Failure(IllegalArgument);
    }
  }

  /** The two characters written for one byte, high nibble first. */
  function ByteHex(b: JByte): string
  {
    var u := Unsigned(b);
    [HexChar(u / 16), HexChar(u % 16)]
  }

  /** The encoder of the read path: two lower-case hex digits per byte, in order. */
  function BaToHexString(bs: seq<JByte>): (s: string)
    ensures |s| == 2 * |bs|
    ensures forall i :: 0 <= i < |s| ==> IsLowerHexDigit(s[i])
  {
    if bs == [] then "" else ByteHex(bs[0]) + BaToHexString(bs[1..])
  }

  /** Byte `i` is written at `2 * i` and `2 * i + 1`, high nibble first. */
  lemma {:induction false} EncodeAt(bs: seq<JByte>, i: nat)
    requires i < |bs|
    ensures BaToHexString(bs)[2 * i] == HexChar(Unsigned(bs[i]) / 16)
    ensures BaToHexString(bs)[2 * i + 1] == HexChar(Unsigned(bs[i]) % 16)
    decreases i
  {
    var rest := BaToHexString(bs[1..]);
    assert BaToHexString(bs) == ByteHex(bs[0]) + rest;
    if i > 0 {
      EncodeAt(bs[1..], i - 1);
      assert 2 * i == 2 * (i - 1) + 2;
    }
  }

  lemma EncodeCons(b: JByte, rest: seq<JByte>)
    ensures BaToHexString([b] + rest) == ByteHex(b) + BaToHexString(rest)
  {
    assert ([b] + rest)[1..] == rest;
  }

  /** One byte survives encoding and decoding. */
  lemma {:induction false} ByteRoundTrip(b: JByte)
    ensures CombineNibbles(Digit(HexChar(Unsigned(b) / 16)), Digit(HexChar(Unsigned(b) % 16))) == b
  {
    var u := Unsigned(b);
    DigitOfHexChar(u / 16);
    DigitOfHexChar(u % 16);
    UnsignedRoundTrip(b);
  }

  /** Decoding undoes encoding, for every byte sequence. */
  lemma {:induction false} DecodeEncode(bs: seq<JByte>)
    ensures HexStringToByteArray(BaToHexString(bs)) == Success(bs)
  {
    var s := BaToHexString(bs);
    var r := HexStringToByteArray(s);
    forall i | 0 <= i < |bs|
      ensures r.value[i] == bs[i]
    {
      EncodeAt(bs, i);
      ByteRoundTrip(bs[i]);
    }
    assert r.value == bs;
  }

  /** One pair of hex digits survives decoding and encoding, lower-cased. */
  lemma {:induction false} PairRoundTrip(c0: char, c1: char)
    requires IsHexDigit(c0) && IsHexDigit(c1)
    ensures ByteHex(CombineNibbles(Digit(c0), Digit(c1))) == [LowerChar(c0), LowerChar(c1)]
  {
    var hi, lo := Digit(c0), Digit(c1);
    DigitNamesChar(c0);
    DigitNamesChar(c1);
    var u := Unsigned(CombineNibbles(hi, lo));
    assert u / 16 == hi && u % 16 == lo;
  }

  /** Encoding undoes decoding up to case, for even-length strings of hex digits. */
  lemma {:induction false} EncodeDecode(s: string)
    requires |s| % 2 == 0
    requires forall i :: 0 <= i < |s| ==> IsHexDigit(s[i])
    ensures HexStringToByteArray(s).Success?
    ensures BaToHexString(HexStringToByteArray(s).value) == AsciiLower(s)
  {
    var bs := HexStringToByteArray(s).value;
    var t := BaToHexString(bs);
    forall i | 0 <= i < |bs|
      ensures t[2 * i] == LowerChar(s[2 * i]) && t[2 * i + 1] == LowerChar(s[2 * i + 1])
    {
      PairRoundTrip(s[2 * i], s[2 * i + 1]);
      EncodeAt(bs, i);
    }
    forall j | 0 <= j < |s|
      ensures t[j] == LowerChar(s[j])
    {
      var i := j / 2;
      assert j == 2 * i || j == 2 * i + 1;
    }
    assert t == AsciiLower(s);
  }

  /** Upper- and lower-case digits decode alike: lower-casing the input never changes the result. */
  lemma {:induction false} DecodeIgnoresCase(s: string)
    ensures HexStringToByteArray(AsciiLower(s)) == HexStringToByteArray(s)
  {
    var t := AsciiLower(s);
    forall j | 0 <= j < |s|
      ensures Digit(t[j]) == Digit(s[j])
    {
      DigitIgnoresCase(s[j]);
    }
    if |s| % 2 == 0 {
      var a, b := HexStringToByteArray(t).value, HexStringToByteArray(s).value;
      forall i | 0 <= i < |a|
        ensures a[i] == b[i]
      {
        assert PairByte(t, i) == PairByte(s, i);
      }
      assert a == b;
    }
  }

  /** "aB" and "ab" both decode to the single byte 0xAB. */
  lemma MixedCaseExample()
    ensures HexStringToByteArray("aB") == HexStringToByteArray("ab") == Success([ToByte(0xAB)])
  {
    DecodeIgnoresCase("aB");
    assert AsciiLower("aB") == "ab";
    var s := "ab";
    assert Digit(s[0]) == 10 && Digit(s[1]) == 11;
    var r := HexStringToByteArray(s);
    assert r.value[0] == CombineNibbles(10, 11);
    assert r.value == [ToByte(0xAB)];
  }

  /** A non-hex character is not rejected: "a1g2" decodes to 0xA1 then 0xF2. */
  lemma NonHexExample()
    ensures HexStringToByteArray("a1g2") == Success([ToByte(0xA1), ToByte(0xF2)])
  {
    var s := "a1g2";
    assert Digit(s[0]) == 10 && Digit(s[1]) == 1;
    assert Digit(s[2]) == -1 && Digit(s[3]) == 2;
    var r := HexStringToByteArray(s);
    assert r.value[0] == CombineNibbles(10, 1) == ToByte(0xA1);
    assert r.value[1] == CombineNibbles(-1, 2) == ToByte(0xF2);
    assert r.value == [ToByte(0xA1), ToByte(0xF2)];
  }
}
