/**
  The hex colour codec of the wheel application: `hexToRgb` reads `#rgb` or
  `#rrggbb` into three byte channels, `rgbToHex` writes three channels as
  `#rrggbb`. JavaScript's bit operators work on 32-bit integers, so the shifts
  are written out over an explicit 32-bit conversion.
*/
module Color {
  import opened Text

  datatype Rgb = Rgb(r: int, g: int, b: int)

  /** A colour whose channels are all bytes. */
  predicate IsByteColor(c: Rgb)
  {
    0 <= c.r < 256 && 0 <= c.g < 256 && 0 <= c.b < 256
  }

  predicate IsHexDigit(c: char)
  {
    '0' <= c <= '9' || 'a' <= c <= 'f' || 'A' <= c <= 'F'
  }

  predicate AllHexDigits(s: string)
  {
    forall i | 0 <= i < |s| :: IsHexDigit(s[i])
  }

  function DigitValue(c: char): (v: nat)
    requires IsHexDigit(c)
    ensures v < 16
  {
    if '0' <= c <= '9' then c as int - '0' as int
    else if 'a' <= c <= 'f' then c as int - 'a' as int + 10
    else c as int - 'A' as int + 10
  }

  /** The lower-case digit for `d`, as `Number.prototype.toString(16)` writes it. */
  function HexChar(d: nat): (c: char)
    requires d < 16
    ensures IsHexDigit(c) && DigitValue(c) == d && !('A' <= c <= 'Z')
  {
    if d < 10 then ('0' as int + d) as char else ('a' as int + d - 10) as char
  }

  /** `hex.replace("#", "")`: only the first `#` goes. */
  function RemoveFirstHash(s: string): (r: string)
    ensures |r| == |s| || |r| == |s| - 1
  {
    if s == [] then []
    else if s[0] == '#' then s[1..]
    else [s[0]] + RemoveFirstHash(s[1..])
  }

  /** `replace("#", "")` removes the first `#`, and changes nothing when there is none. */
  lemma RemoveFirstHashRemovesFirst(s: string)
    ensures (forall i | 0 <= i < |s| :: s[i] != '#') ==> RemoveFirstHash(s) == s
    ensures '#' in s ==>
      exists i | 0 <= i < |s| :: s[i] == '#' && '#' !in s[..i] && RemoveFirstHash(s) == s[..i] + s[i + 1..]
  {
    var i := FirstHash(s);
    RemoveUpTo(s, i);
    if i < |s| {
      assert '#' !in s[..i];
    } else {
      assert s[..i] == s;
    }
  }

  /** The index of the first `#` of `s`, or `|s|` when there is none. */
  function FirstHash(s: string): (i: nat)
    ensures i <= |s|
    ensures i < |s| ==> s[i] == '#'
    ensures forall j | 0 <= j < i :: s[j] != '#'
  {
    if s == [] then 0 else if s[0] == '#' then 0 else 1 + FirstHash(s[1..])
  }

  /** Up to the first `#`, nothing is removed; the `#` itself is. */
  lemma {:induction false} RemoveUpTo(s: string, i: nat)
    requires i == FirstHash(s)
    ensures i < |s| ==> RemoveFirstHash(s) == s[..i] + s[i + 1..]
    ensures i == |s| ==> RemoveFirstHash(s) == s
  {
    if s != [] && s[0] != '#' {
      RemoveUpTo(s[1..], i - 1);
      if i < |s| {
        RemovedAt(s, i - 1);
      } else {
        assert s == [s[0]] + s[1..];
      }
    }
  }

  lemma RemovedAt(s: string, i: nat)
    requires 0 < |s| && i + 1 < |s|
    ensures [s[0]] + (s[1..][..i] + s[1..][i + 1..]) == s[..i + 1] + s[i + 2..]
  {
    assert s[..i + 1] == [s[0]] + s[1..][..i];
    assert s[i + 2..] == s[1..][i + 1..];
  }

  /** `String(hex || "").replace("#", "").trim()`. */
  function Stripped(hex: string): string
  {
    Trim(RemoveFirstHash(hex))
  }

  /** A three-digit code stands for the six-digit code with each digit doubled. */
  function Expand(h: string): (full: string)
    ensures |h| == 3 ==> |full| == 6 && forall i | 0 <= i < 6 :: full[i] == h[i / 2]
    ensures |h| != 3 ==> full == h
  {
    if |h| == 3 then [h[0], h[0], h[1], h[1], h[2], h[2]] else h
  }

  /** The number a string of hex digits denotes, most significant first. */
  function Value(s: string): (v: nat)
    requires AllHexDigits(s)
  {
    if s == [] then 0 else Value(s[..|s| - 1]) * 16 + DigitValue(s[|s| - 1])
  }

  /** `parseInt(full || "0", 16)` on a string of hex digits: "" reads as "0". */
  function ParseHex(full: string): nat
    requires AllHexDigits(full)
  {
    if full == [] then 0 else Value(full)
  }

  /** JavaScript's ToInt32: the value modulo 2^32, in the signed range. */
  function ToInt32(x: int): (y: int)
    ensures -0x8000_0000 <= y < 0x8000_0000
  {
    var m := x % 0x1_0000_0000;
    if m >= 0x8000_0000 then m - 0x1_0000_0000 else m
  }

  /** `x >> 8`: sign-propagating shift of the 32-bit value (Dafny's `/` floors for a positive divisor). */
  function Shr8(x: int): int
  {
    ToInt32(x) / 0x100
  }

  /** `x >> 16`. */
  function Shr16(x: int): int
  {
    ToInt32(x) / 0x1_0000
  }

  /** `x & 255`: the low byte of the 32-bit value. */
  function LowByte(x: int): (b: int)
    ensures 0 <= b < 256
  {
    ToInt32(x) % 256
  }

  /** Whether `hexToRgb` is given a code it reads digit by digit: hex digits only, few enough to be exact in a double. */
  predicate ValidHex(hex: string)
  {
    AllHexDigits(Stripped(hex)) && |Stripped(hex)| <= 13
  }

  /** `hexToRgb(hex)`. */
  function HexToRgb(hex: string): (c: Rgb)
    requires ValidHex(hex)
    ensures IsByteColor(c)
  {
    var full := Expand(Stripped(hex));
    var num := ParseHex(full);
    Rgb(LowByte(Shr16(num)), LowByte(Shr8(num)), LowByte(num))
  }

  /** The hex digits of a non-negative number, without leading zeros. */
  function Digits(n: nat): (s: string)
    ensures |s| >= 1
    decreases n
  {
    if n < 16 then [HexChar(n)] else Digits(n / 16) + [HexChar(n % 16)]
  }

  /** `parseInt(n.toString(16), 16) == n`: the digits written for a number read back as it. */
  lemma {:induction false} DigitsValue(n: nat)
    ensures AllHexDigits(Digits(n)) && Value(Digits(n)) == n
    decreases n
  {
    if n >= 16 {
      DigitsValue(n / 16);
      var s := Digits(n);
      assert s[..|s| - 1] == Digits(n / 16);
    }
  }

  /** `Number(n).toString(16)`. */
  function ToHexString(n: int): string
  {
    if n < 0 then ['-'] + Digits(-n) else Digits(n)
  }

  /** `s.padStart(2, "0")`. */
  function PadTwo(s: string): (p: string)
    ensures |p| == if |s| < 2 then 2 else |s|
  {
    if |s| == 0 then "00" else if |s| == 1 then ['0'] + s else s
  }

  /** `to(n)` inside `rgbToHex`. */
  function Channel(n: int): string
  {
    PadTwo(ToHexString(n))
  }

  /** `rgbToHex({ r, g, b })`. */
  function RgbToHex(c: Rgb): string
  {
    ['#'] + Channel(c.r) + Channel(c.g) + Channel(c.b)
  }

  // ---------------------------------------------------------------------------
  // Properties
  // ---------------------------------------------------------------------------

  /** A byte is written as its high and its low hex digit, in lower case. */
  lemma ChannelOfByte(n: int)
    requires 0 <= n < 256
    ensures Channel(n) == [HexChar(n / 16), HexChar(n % 16)]
  {
    if n >= 16 {
      assert Digits(n) == Digits(n / 16) + [HexChar(n % 16)];
    }
  }

  /** The six digits `rgbToHex` writes for a byte colour: high then low digit of each channel. */
  lemma RgbToHexDigits(c: Rgb)
    requires IsByteColor(c)
    ensures RgbToHex(c)
      == ['#', HexChar(c.r / 16), HexChar(c.r % 16), HexChar(c.g / 16), HexChar(c.g % 16), HexChar(c.b / 16), HexChar(c.b % 16)]
  {
    ChannelOfByte(c.r);
    ChannelOfByte(c.g);
    ChannelOfByte(c.b);
  }

  /** `rgbToHex` of a byte colour is `#` and six lower-case hex digits. */
  lemma RgbToHexShape(c: Rgb)
    requires IsByteColor(c)
    ensures |RgbToHex(c)| == 7 && RgbToHex(c)[0] == '#'
    ensures AllHexDigits(RgbToHex(c)[1..])
    ensures forall i | 1 <= i < 7 :: !('A' <= RgbToHex(c)[i] <= 'Z')
  {
    RgbToHexDigits(c);
  }

  /** Six digits read as three bytes, each spelled by a digit pair, most significant first. */
  lemma ValueSix(s: string)
    requires |s| == 6 && AllHexDigits(s)
    ensures Value(s) == PairValue(s[0], s[1]) * 0x1_0000 + PairValue(s[2], s[3]) * 0x100 + PairValue(s[4], s[5])
  {
    var v := seq(6, i requires 0 <= i < 6 => DigitValue(s[i]));
    assert Value(s[..1]) == v[0] by {
      assert s[..1][..0] == [];
    }
    assert Value(s[..2]) == v[0] * 16 + v[1] by {
      assert s[..2][..1] == s[..1];
    }
    assert Value(s[..3]) == (v[0] * 16 + v[1]) * 16 + v[2] by {
      assert s[..3][..2] == s[..2];
    }
    assert Value(s[..4]) == ((v[0] * 16 + v[1]) * 16 + v[2]) * 16 + v[3] by {
      assert s[..4][..3] == s[..3];
    }
    assert Value(s[..5]) == (((v[0] * 16 + v[1]) * 16 + v[2]) * 16 + v[3]) * 16 + v[4] by {
      assert s[..5][..4] == s[..4];
    }
    assert Value(s) == ((((v[0] * 16 + v[1]) * 16 + v[2]) * 16 + v[3]) * 16 + v[4]) * 16 + v[5] by {
      assert s[..5] == s[..|s| - 1];
    }
  }

  /** The byte two hex digits spell. */
  function PairValue(x: char, y: char): (v: nat)
    requires IsHexDigit(x) && IsHexDigit(y)
    ensures v < 256
  {
    DigitValue(x) * 16 + DigitValue(y)
  }

  /** `(x >> 16) & 255`, `(x >> 8) & 255` and `x & 255` pick the three low bytes of a number below 2^24. */
  lemma BytesOf(hi: int, mid: int, lo: int)
    requires 0 <= hi < 256 && 0 <= mid < 256 && 0 <= lo < 256
    ensures LowByte(Shr16(hi * 0x1_0000 + mid * 0x100 + lo)) == hi
    ensures LowByte(Shr8(hi * 0x1_0000 + mid * 0x100 + lo)) == mid
    ensures LowByte(hi * 0x1_0000 + mid * 0x100 + lo) == lo
  {
    var x := hi * 0x1_0000 + mid * 0x100 + lo;
    ToInt32Small(x);
    DivAdd(mid * 0x100 + lo, hi, 0x1_0000);
    ToInt32Small(hi);
    DivAdd(lo, hi * 0x100 + mid, 0x100);
    ToInt32Small(hi * 0x100 + mid);
    DivAdd(mid, hi, 0x100);
  }

  /** `#` and six hex digits read as the three bytes the digit pairs spell. */
  lemma HexToRgbSix(d: string)
    requires |d| == 6 && AllHexDigits(d)
    ensures ValidHex(['#'] + d)
    ensures HexToRgb(['#'] + d) == Rgb(PairValue(d[0], d[1]), PairValue(d[2], d[3]), PairValue(d[4], d[5]))
  {
    assert RemoveFirstHash(['#'] + d) == d;
    assert forall i | 0 <= i < 6 :: !IsSpace(d[i]);
    TrimUnchanged(d);
    ValueSix(d);
    BytesOf(PairValue(d[0], d[1]), PairValue(d[2], d[3]), PairValue(d[4], d[5]));
  }

  /** Reading back what `rgbToHex` writes gives the colour: the codec round-trips on byte colours. */
  lemma HexToRgbOfRgbToHex(c: Rgb)
    requires IsByteColor(c)
    ensures ValidHex(RgbToHex(c))
    ensures HexToRgb(RgbToHex(c)) == c
  {
    var d := [HexChar(c.r / 16), HexChar(c.r % 16), HexChar(c.g / 16), HexChar(c.g % 16), HexChar(c.b / 16), HexChar(c.b % 16)];
    RgbToHexDigits(c);
    HexToRgbSix(d);
    assert PairValue(d[0], d[1]) == c.r && PairValue(d[2], d[3]) == c.g && PairValue(d[4], d[5]) == c.b;
  }

  /** Writing what `hexToRgb` reads from `#` and six hex digits gives the digits back, lower-cased. */
  lemma RgbToHexOfHexToRgb(d: string)
    requires |d| == 6 && AllHexDigits(d)
    ensures ValidHex(['#'] + d)
    ensures RgbToHex(HexToRgb(['#'] + d)) == ['#'] + ToLower(d)
  {
    HexToRgbSix(d);
    RgbToHexOfPairs(d[0], d[1], d[2], d[3], d[4], d[5]);
    LowerSix(d);
  }

  /** Writing the three bytes six hex digits spell gives the digits back, lower-cased. */
  lemma RgbToHexOfPairs(x0: char, x1: char, y0: char, y1: char, z0: char, z1: char)
    requires IsHexDigit(x0) && IsHexDigit(x1) && IsHexDigit(y0) && IsHexDigit(y1) && IsHexDigit(z0) && IsHexDigit(z1)
    ensures RgbToHex(Rgb(PairValue(x0, x1), PairValue(y0, y1), PairValue(z0, z1)))
      == ['#'] + [Lower(x0), Lower(x1), Lower(y0), Lower(y1), Lower(z0), Lower(z1)]
  {
    RgbToHexDigits(Rgb(PairValue(x0, x1), PairValue(y0, y1), PairValue(z0, z1)));
    PairDigits(x0, x1);
    PairDigits(y0, y1);
    PairDigits(z0, z1);
    assert ['#'] + [Lower(x0), Lower(x1), Lower(y0), Lower(y1), Lower(z0), Lower(z1)]
      == ['#', Lower(x0), Lower(x1), Lower(y0), Lower(y1), Lower(z0), Lower(z1)];
  }

  /** The high and low digit of the byte two digits spell are those digits, lower-cased. */
  lemma PairDigits(x: char, y: char)
    requires IsHexDigit(x) && IsHexDigit(y)
    ensures HexChar(PairValue(x, y) / 16) == Lower(x) && HexChar(PairValue(x, y) % 16) == Lower(y)
  {
    var n := PairValue(x, y);
    assert n / 16 == DigitValue(x) && n % 16 == DigitValue(y);
  }

  lemma LowerSix(d: string)
    requires |d| == 6
    ensures ToLower(d) == [Lower(d[0]), Lower(d[1]), Lower(d[2]), Lower(d[3]), Lower(d[4]), Lower(d[5])]
  {
    ToLowerAt(d);
  }

  /** A three-digit code `#xyz` is read as `#xxyyzz`: each channel is 17 times its digit. */
  lemma ShortForm(x: char, y: char, z: char)
    requires IsHexDigit(x) && IsHexDigit(y) && IsHexDigit(z)
    ensures ValidHex(['#', x, y, z])
    ensures HexToRgb(['#', x, y, z]) == Rgb(17 * DigitValue(x), 17 * DigitValue(y), 17 * DigitValue(z))
  {
    var d := [x, y, z];
    assert RemoveFirstHash(['#', x, y, z]) == d;
    TrimUnchanged(d);
    var full := [x, x, y, y, z, z];
    assert Expand(d) == full;
    ValueSix(full);
    BytesOf(PairValue(x, x), PairValue(y, y), PairValue(z, z));
  }

  /** The 32-bit shifts agree with plain division: `(x >> 16) & 255` is byte 2 of `x` for every integer `x`. */
  lemma ShiftIsDivision(x: int)
    ensures LowByte(Shr16(x)) == (x / 0x1_0000) % 256
    ensures LowByte(Shr8(x)) == (x / 0x100) % 256
    ensures LowByte(x) == x % 256
  {
    Shift16(x);
    Shift8(x);
    Shift0(x);
  }

  /** How many times 2^32 separates `x` from its 32-bit value. */
  function Wraps(x: int): int
  {
    if x % 0x1_0000_0000 >= 0x8000_0000 then x / 0x1_0000_0000 + 1 else x / 0x1_0000_0000
  }

  /** `x` is its 32-bit value plus a multiple of 2^32. */
  lemma ToInt32Wraps(x: int)
    ensures x == ToInt32(x) + Wraps(x) * 0x1_0000_0000
  {
  }

  /** A value already in the 32-bit range is its own 32-bit value. */
  lemma ToInt32Small(x: int)
    requires -0x8000_0000 <= x < 0x8000_0000
    ensures ToInt32(x) == x
  {
    if x < 0 {
      assert x % 0x1_0000_0000 == x + 0x1_0000_0000;
    }
  }

  /** Adding `k` times the divisor adds `k` to the quotient and keeps the remainder. */
  lemma DivAdd(a: int, k: int, d: int)
    requires d == 0x100 || d == 0x1_0000
    ensures (a + k * d) / d == a / d + k
    ensures (a + k * d) % d == a % d
  {
    if d == 0x100 {
      var q, r := a / 0x100, a % 0x100;
      assert a + k * 0x100 == (q + k) * 0x100 + r;
    } else {
      var q, r := a / 0x1_0000, a % 0x1_0000;
      assert a + k * 0x1_0000 == (q + k) * 0x1_0000 + r;
    }
  }

  /** `(x >> 16) & 255` is byte 2 of `x`. */
  lemma Shift16(x: int)
    ensures LowByte(Shr16(x)) == (x / 0x1_0000) % 256
  {
    var y, k := ToInt32(x), Wraps(x);
    ToInt32Wraps(x);
    DivAdd(y, k * 0x1_0000, 0x1_0000);
    var a := y / 0x1_0000;
    ToInt32Small(a);
    DivAdd(a, k * 0x100, 0x100);
  }

  /** `(x >> 8) & 255` is byte 1 of `x`. */
  lemma Shift8(x: int)
    ensures LowByte(Shr8(x)) == (x / 0x100) % 256
  {
    var y, k := ToInt32(x), Wraps(x);
    ToInt32Wraps(x);
    DivAdd(y, k * 0x100_0000, 0x100);
    var a := y / 0x100;
    ToInt32Small(a);
    DivAdd(a, k * 0x1_0000, 0x100);
  }

  /** `x & 255` is byte 0 of `x`. */
  lemma Shift0(x: int)
    ensures LowByte(x) == x % 256
  {
    ToInt32Wraps(x);
    DivAdd(ToInt32(x), Wraps(x) * 0x100_0000, 0x100);
  }
}
