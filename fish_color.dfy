/**
  The colour helper of the fish component (`darkenColor` in components/Fish.tsx): it takes a
  colour written `#rrggbb` or `rrggbb`, lowers each channel by `amount` (stopping at zero)
  and writes the result back as `#` and six lowercase hexadecimal digits.

  The recomposition step writes `g | (b << 8) | (r << 16)`, so the darkened green lands in
  the low byte and the darkened blue in the middle byte: the output is ordered red, blue,
  green. The model keeps that order.

  Channels of a 24-bit colour value follow the `#rrggbb` convention: `Red` is the high
  byte, `Green` the middle byte, `Blue` the low byte.
 */
module FishColor {

  import opened JsNumber

  /** An optional '#' followed by exactly six hexadecimal digits. */
  predicate IsHexColor(s: string) {
    (|s| == 7 && s[0] == '#' && AllHex(s[1..])) || (|s| == 6 && AllHex(s))
  }

  /** Drops one leading '#', if there is one; a colour keeps its six digits. */
  function StripHash(s: string): (r: string)
    ensures s == r || s == "#" + r
    ensures IsHexColor(s) ==> |r| == 6 && AllHex(r)
  {
    if |s| > 0 && s[0] == '#' then
      assert s == "#" + s[1..];
      s[1..]
    else s
  }

  /**
    Six characters: zeros are put in front and the last six are kept, so lowercase digits
    stay lowercase digits and a short string only gains leading zeros.
   */
  function PadHex6(s: string): (r: string)
    ensures |r| == 6
    ensures AllLowerHex(s) ==> AllLowerHex(r)
    ensures |s| <= 6 ==> r == Zeros(6 - |s|) + s
  {
    PadStartDigits(s, 6);
    PadStartShort(s, 6);
    PadStart(s, 6)
  }

  /** The last `w` characters of `s` after `w` zeros are put in front of it. */
  function PadStart(s: string, w: nat): string {
    var t := Zeros(w) + s;
    t[|t| - w..]
  }

  /** Negative values become zero, the others stay. */
  function ClampAtZero(v: int): nat {
    if v < 0 then 0 else v
  }

  function Red(n: nat): nat { n / 65536 }
  function Green(n: nat): nat { (n / 256) % 256 }
  function Blue(n: nat): nat { n % 256 }

  /** The colour value with the given high, middle and low bytes. */
  function Pack(high: nat, middle: nat, low: nat): nat {
    high * 65536 + middle * 256 + low
  }

  /**
    The value `darkenColor` formats (lines 6-13 of the helper): for a 24-bit colour, the
    bytes red, blue and green, each lowered by `amount` and stopped at zero.
   */
  function DarkenValue(num: nat, amount: nat): (v: nat)
    ensures num < 0x1000000 ==> v == Pack(ClampAtZero(Red(num) - amount),
                                          ClampAtZero(Blue(num) - amount),
                                          ClampAtZero(Green(num) - amount))
  {
    var r := ClampAtZero(ShiftRight(num, 16) - amount);
    var g := ClampAtZero(BitAnd(ShiftRight(num, 8), 0x00FF) - amount);
    var b := ClampAtZero(BitAnd(num, 0x0000FF) - amount);
    var v := BitOr(BitOr(g, ShiftLeft(b, 8)), ShiftLeft(r, 16));
    if num < 0x1000000 then DarkenBytes(num, amount, r, g, b); v else v
  }

  /** The shifts and masks read the bytes, and the or-ing writes them back side by side. */
  lemma DarkenBytes(num: nat, amount: nat, r: nat, g: nat, b: nat)
    requires num < 0x1000000
    requires r == ClampAtZero(ShiftRight(num, 16) - amount)
    requires g == ClampAtZero(BitAnd(ShiftRight(num, 8), 0x00FF) - amount)
    requires b == ClampAtZero(BitAnd(num, 0x0000FF) - amount)
    ensures BitOr(BitOr(g, ShiftLeft(b, 8)), ShiftLeft(r, 16))
         == Pack(ClampAtZero(Red(num) - amount), ClampAtZero(Blue(num) - amount),
                 ClampAtZero(Green(num) - amount))
  {
    Extract(num);
    ChannelBounds(num);
    Recompose(g, b, r);
  }

  /** `darkenColor(colorStr, amount)` */
  function DarkenColor(colorStr: string, amount: nat): (out: string)
    requires IsHexColor(colorStr)
    ensures |out| == 7 && out[0] == '#' && AllLowerHex(out[1..])
    ensures IsHexColor(out)
  {
    var color := StripHash(colorStr);
    var newColor := DarkenValue(ParseHex(color), amount);
    var out := "#" + PadHex6(ToHex(newColor));
    assert out[1..] == PadHex6(ToHex(newColor));
    out
  }

  /** Padding keeps `w` characters, and lowercase digits when given lowercase digits. */
  lemma PadStartDigits(s: string, w: nat)
    ensures |PadStart(s, w)| == w
    ensures AllLowerHex(s) ==> AllLowerHex(PadStart(s, w))
  {
    var t := Zeros(w) + s;
    if AllLowerHex(s) {
      assert forall i :: 0 <= i < |t| ==> IsLowerHexDigit(t[i]);
    }
  }

  /** Padding a short string only adds leading zeros. */
  lemma PadStartShort(s: string, w: nat)
    ensures |s| <= w ==> PadStart(s, w) == Zeros(w - |s|) + s
  {
    if |s| <= w {
      var a, z := Zeros(|s|), Zeros(w - |s|);
      ZerosSplit(|s|, w - |s|);
      assert Zeros(w) + s == a + (z + s);
    }
  }

  lemma ZerosSplit(m: nat, n: nat)
    ensures Zeros(m + n) == Zeros(m) + Zeros(n)
  {
    var a, z := Zeros(m), Zeros(n);
    assert |Zeros(m + n)| == |a + z|;
    forall i | 0 <= i < m + n ensures Zeros(m + n)[i] == (a + z)[i] {
      if i < m { assert (a + z)[i] == a[i]; } else { assert (a + z)[i] == z[i - m]; }
    }
  }

  /** Formatting a 24-bit value with `toString(16)` and padding reads back as that value. */
  lemma {:induction false} Hex6RoundTrip(n: nat)
    requires n < 0x1000000
    ensures AllLowerHex(PadHex6(ToHex(n))) && |PadHex6(ToHex(n))| == 6
    ensures ParseHex(PadHex6(ToHex(n))) == n
  {
    var s := ToHex(n);
    ToHexLength(n, 6);
    ParseLeadingZeros(6 - |s|, s);
    ParseToHex(n);
  }

  /** Or-ing `g`, `b` shifted by 8 and `r` shifted by 16 places the three bytes side by side. */
  lemma Recompose(g: nat, b: nat, r: nat)
    requires g < 256 && b < 256 && r < 256
    ensures BitOr(BitOr(g, ShiftLeft(b, 8)), ShiftLeft(r, 16)) == Pack(r, b, g)
  {
    assert Pow2(8) == 256 && Pow2(16) == 65536;
    BitOrDisjoint(g, b, 8);
    BitOrDisjoint(g + b * 256, r, 16);
  }

  /** The shifts and masks of `darkenColor` read the red, green and blue bytes. */
  lemma Extract(num: nat)
    ensures ShiftRight(num, 16) == Red(num)
    ensures BitAnd(ShiftRight(num, 8), 0x00FF) == Green(num)
    ensures BitAnd(num, 0x0000FF) == Blue(num)
  {
    assert Pow2(8) == 256 && Pow2(16) == 65536;
    BitAndMask(num / 256, 8);
    BitAndMask(num, 8);
  }

  /** A 24-bit value is determined by its three bytes. */
  lemma UnpackPack(n: nat)
    requires n < 0x1000000
    ensures Pack(Red(n), Green(n), Blue(n)) == n
  {
    DivModUnique(n, 256, n / 256, n % 256);
    DivModUnique(n / 256, 256, n / 65536, (n / 256) % 256);
  }

  /** Packing three bytes and reading the channels back gives those bytes. */
  lemma PackUnpack(high: nat, middle: nat, low: nat)
    requires high < 256 && middle < 256 && low < 256
    ensures var p := Pack(high, middle, low);
      Red(p) == high && Green(p) == middle && Blue(p) == low
  {
    var p := Pack(high, middle, low);
    DivModUnique(p, 256, high * 256 + middle, low);
    DivModUnique(high * 256 + middle, 256, high, middle);
    DivModUnique(p, 65536, high, middle * 256 + low);
  }

  /** Each channel of a 24-bit value is a byte. */
  lemma ChannelBounds(n: nat)
    requires n < 0x1000000
    ensures Red(n) < 256 && Green(n) < 256 && Blue(n) < 256
  {
    DivModUnique(n, 65536, n / 65536, n % 65536);
    assert n / 65536 < 256;
  }

  /** The digits `darkenColor` writes read back as the value it computed. */
  lemma DarkenColorValue(colorStr: string, amount: nat)
    requires IsHexColor(colorStr)
    ensures ParseHex(StripHash(colorStr)) < 0x1000000
    ensures ParseHex(DarkenColor(colorStr, amount)[1..])
         == DarkenValue(ParseHex(StripHash(colorStr)), amount)
  {
    var n := ParseHex(StripHash(colorStr));
    var v := DarkenValue(n, amount);
    assert Pow16(6) == 0x1000000;
    DarkenValueBound(n, amount);
    Hex6RoundTrip(v);
    assert DarkenColor(colorStr, amount)[1..] == PadHex6(ToHex(v));
  }

  lemma DarkenValueBound(n: nat, amount: nat)
    requires n < 0x1000000
    ensures DarkenValue(n, amount) < 0x1000000
  {
    ChannelBounds(n);
  }

  /** The bytes of the darkened value: red high, blue middle, green low. */
  lemma DarkenValueChannels(n: nat, amount: nat)
    requires n < 0x1000000
    ensures var m := DarkenValue(n, amount);
      && Red(m) == ClampAtZero(Red(n) - amount)
      && Green(m) == ClampAtZero(Blue(n) - amount)
      && Blue(m) == ClampAtZero(Green(n) - amount)
  {
    ChannelBounds(n);
    var r := ClampAtZero(Red(n) - amount);
    var g := ClampAtZero(Green(n) - amount);
    var b := ClampAtZero(Blue(n) - amount);
    assert r < 256 && g < 256 && b < 256;
    PackUnpack(r, b, g);
  }

  /**
    Channel by channel, the output of `darkenColor` holds: in its high byte the darkened
    red, in its middle byte the darkened blue, in its low byte the darkened green, each
    lowered by `amount` and stopped at zero. No channel gets brighter.
   */
  lemma DarkenChannels(colorStr: string, amount: nat)
    requires IsHexColor(colorStr)
    ensures var n := ParseHex(StripHash(colorStr));
      var m := ParseHex(DarkenColor(colorStr, amount)[1..]);
      && Red(m) == ClampAtZero(Red(n) - amount)
      && Green(m) == ClampAtZero(Blue(n) - amount)
      && Blue(m) == ClampAtZero(Green(n) - amount)
      && Red(m) <= Red(n) && Green(m) <= Blue(n) && Blue(m) <= Green(n)
  {
    DarkenColorValue(colorStr, amount);
    DarkenValueChannels(ParseHex(StripHash(colorStr)), amount);
  }

  /** The leading '#' is optional: with or without it the output is the same. */
  lemma HashOptional(t: string, amount: nat)
    requires |t| == 6 && AllHex(t)
    ensures IsHexColor("#" + t) && IsHexColor(t)
    ensures DarkenColor("#" + t, amount) == DarkenColor(t, amount)
  {
    assert ("#" + t)[1..] == t;
    assert StripHash(t) == t by { assert IsHexDigit(t[0]); }
  }

  /** One colour of the fish palette: with `amount` zero only its two low bytes trade places. */
  lemma SwapExample(colorStr: string)
    requires colorStr == "#f94144"
    ensures IsHexColor(colorStr) && DarkenColor(colorStr, 0) == "#f94441"
  {
    var expected := "#f94441";
    var input, output := colorStr[1..], expected[1..];
    assert input == "f94144" && output == "f94441";
    ExampleValues(input, output);
    assert StripHash(colorStr) == input;
    ExampleDarkened(ParseHex(input));
    DarkenDigits(colorStr, 0, output);
    HashSplit(expected);
  }

  lemma HashSplit(s: string)
    requires |s| >= 1 && s[0] == '#'
    ensures s == "#" + s[1..]
  {
  }

  /** `darkenColor` writes the six lowercase digits whose value is the darkened value. */
  lemma DarkenDigits(colorStr: string, amount: nat, digits: string)
    requires IsHexColor(colorStr) && |digits| == 6 && AllLowerHex(digits)
    requires ParseHex(digits) == DarkenValue(ParseHex(StripHash(colorStr)), amount)
    ensures DarkenColor(colorStr, amount) == "#" + digits
  {
    var out := DarkenColor(colorStr, amount);
    DarkenColorValue(colorStr, amount);
    ParseInjective(out[1..], digits);
    HashSplit(out);
  }

  lemma ExampleDarkened(n: nat)
    requires n == 0xf94144
    ensures DarkenValue(n, 0) == 0xf94441
  {
    ChannelBounds(n);
    DivModUnique(n, 256, 0xf941, 0x44);
    DivModUnique(0xf941, 256, 0xf9, 0x41);
    DivModUnique(n, 65536, 0xf9, 0x4144);
  }

  lemma ExampleValues(input: string, output: string)
    requires input == "f94144" && output == "f94441"
    ensures AllLowerHex(input) && AllLowerHex(output)
    ensures ParseHex(input) == 0xf94144 && ParseHex(output) == 0xf94441
  {
    assert DigitValue('f') == 15 && DigitValue('9') == 9 && DigitValue('4') == 4 && DigitValue('1') == 1;
    ParseSix(input);
    ParseSix(output);
  }

  /** The value of six digits, written out. */
  lemma ParseSix(s: string)
    requires |s| == 6 && AllHex(s)
    ensures ParseHex(s) == ((((DigitValue(s[0]) * 16 + DigitValue(s[1])) * 16 + DigitValue(s[2])) * 16
                             + DigitValue(s[3])) * 16 + DigitValue(s[4])) * 16 + DigitValue(s[5])
  {
    assert forall k :: 1 <= k <= 6 ==> s[..k][..k - 1] == s[..k - 1] && s[..k][k - 1] == s[k - 1];
    assert s[..6] == s;
    ParseLast(s[..1]);
    ParseLast(s[..2]);
    ParseLast(s[..3]);
    ParseLast(s[..4]);
    ParseLast(s[..5]);
    ParseLast(s);
    assert s[..1][..0] == [];
  }

  /** With `amount` zero the value computation only swaps the two low bytes, twice. */
  lemma DarkenValueTwice(n: nat)
    requires n < 0x1000000
    ensures DarkenValue(n, 0) < 0x1000000
    ensures DarkenValue(DarkenValue(n, 0), 0) == n
  {
    var m := DarkenValue(n, 0);
    DarkenValueBound(n, 0);
    DarkenValueChannels(n, 0);
    var m2 := DarkenValue(m, 0);
    DarkenValueBound(m, 0);
    DarkenValueChannels(m, 0);
    assert Red(m2) == Red(n) && Green(m2) == Green(n) && Blue(m2) == Blue(n);
    UnpackPack(n);
    UnpackPack(m2);
  }

  /**
    With `amount` zero, darkening twice undoes the swap of green and blue: the result is the
    input colour in lowercase, with a leading '#'.
   */
  lemma SwapInvolution(colorStr: string)
    requires IsHexColor(colorStr)
    ensures DarkenColor(DarkenColor(colorStr, 0), 0) == "#" + Lower(StripHash(colorStr))
  {
    var t := StripHash(colorStr);
    var once := DarkenColor(colorStr, 0);
    var twice := DarkenColor(once, 0);
    DarkenColorValue(colorStr, 0);
    DarkenColorValue(once, 0);
    assert StripHash(once) == once[1..];
    DarkenValueTwice(ParseHex(t));
    assert ParseHex(twice[1..]) == ParseHex(t);
    ParseLower(t);
    ParseInjective(twice[1..], Lower(t));
    assert twice == "#" + twice[1..];
  }
}
