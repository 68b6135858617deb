/**
  * Packed RGB pixels: a pixel is one Java `int` holding, from the most
  * significant byte down, an unused byte, red, green and blue.  Two ways of
  * taking a pixel apart live side by side in the editor: byte masks and
  * shifts (`unpackRedByte` and its siblings) and the divisions by 65536 and
  * 256 with Java's truncating `/` and `%` that `downSample` and `patch` use.
  */
module Pixels {

  /** A Java `int`. */
  type Int32 = x: int | -0x8000_0000 <= x < 0x8000_0000

  /** Channel weights `1 << RED_BYTE_SHIFT`, `1 << GREEN_BYTE_SHIFT` and
    * `1 << BLUE_BYTE_SHIFT` for the shifts 16, 8 and 0. */
  const RED_BYTE_UNIT: int := 0x1_0000
  const GREEN_BYTE_UNIT: int := 0x100
  const BLUE_BYTE_UNIT: int := 1

  /** The divisors `(int) Math.pow(16, 4)` and `(int) Math.pow(16, 2)`. */
  const RED_DIVISOR: int := 65536
  const GREEN_DIVISOR: int := 256

  /** A pixel whose unused top byte is clear, as loading an image with its
    * alpha byte masked off produces. */
  predicate IsRgb24(rgb: int)
  {
    0 <= rgb < 0x100_0000
  }

  predicate IsByte(x: int)
  {
    0 <= x <= 0xff
  }

  /** `(rgb & (0xff << s)) >> s` where `unit == 1 << s`.  On a two's-complement
    * integer an arithmetic shift right by `s` is floor division by `2^s`, and
    * keeping the low byte is the (never negative) remainder modulo 256, which
    * are exactly Dafny's `/` and `%`. */
  function ByteAt(rgb: int, unit: int): (b: int)
    requires unit > 0
    ensures IsByte(b)
  {
    (rgb / unit) % 0x100
  }

  function UnpackRedByte(rgb: Int32): (red: int)
    ensures IsByte(red)
  {
    ByteAt(rgb, RED_BYTE_UNIT)
  }

  function UnpackGreenByte(rgb: Int32): (green: int)
    ensures IsByte(green)
  {
    ByteAt(rgb, GREEN_BYTE_UNIT)
  }

  function UnpackBlueByte(rgb: Int32): (blue: int)
    ensures IsByte(blue)
  {
    ByteAt(rgb, BLUE_BYTE_UNIT)
  }

  /** `(red << 16) + (green << 8) + (blue << 0)`; for bytes no shift leaves
    * the low 24 bits, so no wrap-around happens. */
  function PackInt(red: int, green: int, blue: int): (rgb: Int32)
    requires IsByte(red) && IsByte(green) && IsByte(blue)
    ensures IsRgb24(rgb)
  {
    red * RED_BYTE_UNIT + green * GREEN_BYTE_UNIT + blue * BLUE_BYTE_UNIT
  }

  /** `(q * d + s) / d == q` and `(q * d + s) % d == s` for a remainder `s` in range. */
  lemma DivMulAdd(q: int, s: int, d: int)
    requires d > 0 && 0 <= s < d
    ensures (q * d + s) / d == q && (q * d + s) % d == s
  {
    var n := q * d + s;
    var q', s' := n / d, n % d;
    assert (q - q') * d == s' - s by {
      assert (q - q') * d == q * d - q' * d;
    }
    if q - q' >= 1 {
      MulAtLeast(q - q', d);
      assert false;
    } else if q' - q >= 1 {
      MulAtLeast(q' - q, d);
      assert false;
    }
  }

  lemma MulAtLeast(k: int, d: int)
    requires k >= 1 && d > 0
    ensures k * d >= d
  {
  }

  /** Unpacking each channel of a packed pixel gives back that channel. */
  lemma {:induction false} UnpackPackInt(red: int, green: int, blue: int)
    requires IsByte(red) && IsByte(green) && IsByte(blue)
    ensures UnpackRedByte(PackInt(red, green, blue)) == red
    ensures UnpackGreenByte(PackInt(red, green, blue)) == green
    ensures UnpackBlueByte(PackInt(red, green, blue)) == blue
  {
    var rgb := PackInt(red, green, blue);
    DivMulAdd(red, green * 0x100 + blue, 0x1_0000);
    DivMulAdd(0, red, 0x100);
    DivMulAdd(red * 0x100 + green, blue, 0x100);
    DivMulAdd(red, green, 0x100);
    DivMulAdd(rgb / 0x100, blue, 0x100);
  }

  /** The three channels of a pixel with a clear top byte pack back into it. */
  lemma {:induction false} PackIntUnpack(rgb: Int32)
    requires IsRgb24(rgb)
    ensures PackInt(UnpackRedByte(rgb), UnpackGreenByte(rgb), UnpackBlueByte(rgb)) == rgb
  {
    var red, green, blue := rgb / 0x1_0000, (rgb / 0x100) % 0x100, rgb % 0x100;
    var low := rgb % 0x1_0000;
    assert rgb == red * 0x1_0000 + low && 0 <= low < 0x1_0000;
    assert red < 0x100;
    DivMulAdd(0, red, 0x100);
    DivMulAdd(red * 0x100 + low / 0x100, low % 0x100, 0x100);
    assert rgb == (red * 0x100 + low / 0x100) * 0x100 + low % 0x100;
    DivMulAdd(red, low / 0x100, 0x100);
    assert green == low / 0x100;
    assert blue == low % 0x100;
  }

  /** Java's integer division, which truncates toward zero. */
  function JavaDiv(a: int, d: int): (q: int)
    requires d > 0
    ensures a >= 0 ==> 0 <= a - q * d < d
    ensures a < 0 ==> -d < a - q * d <= 0
  {
    if a >= 0 then a / d else -((-a) / d)
  }

  /** Java's `%`, whose result has the sign of the dividend. */
  function JavaRem(a: int, d: int): (r: int)
    requires d > 0
    ensures a >= 0 ==> 0 <= r < d
    ensures a < 0 ==> -d < r <= 0
  {
    a - JavaDiv(a, d) * d
  }

  /** The channels as `downSample` and `patch` compute them:
    * `rgb / RED_DIVISOR`, then `(rgb % RED_DIVISOR) / GREEN_DIVISOR`, then
    * `(rgb % RED_DIVISOR) % GREEN_DIVISOR`, all with Java's operators. */
  function DivRed(rgb: Int32): (red: int)
    ensures -0x8000 <= red < 0x8000
  {
    JavaDiv(rgb, RED_DIVISOR)
  }

  function DivGreen(rgb: Int32): (green: int)
    ensures -0xff <= green <= 0xff
    ensures rgb >= 0 ==> green >= 0
  {
    JavaDiv(JavaRem(rgb, RED_DIVISOR), GREEN_DIVISOR)
  }

  function DivBlue(rgb: Int32): (blue: int)
    ensures -0xff <= blue <= 0xff
    ensures rgb >= 0 ==> blue >= 0
  {
    JavaRem(JavaRem(rgb, RED_DIVISOR), GREEN_DIVISOR)
  }

  /** The division split loses nothing: any `int` is recombined exactly
    * from its three truncated parts. */
  lemma {:induction false} DivisionSplitRecombines(rgb: Int32)
    ensures rgb == DivRed(rgb) * RED_DIVISOR + DivGreen(rgb) * GREEN_DIVISOR + DivBlue(rgb)
  {
    var low := JavaRem(rgb, RED_DIVISOR);
    assert rgb == DivRed(rgb) * RED_DIVISOR + low;
    assert low == DivGreen(rgb) * GREEN_DIVISOR + DivBlue(rgb);
  }

  /** On a pixel with a clear top byte the division split and the byte
    * masks give the same channels. */
  lemma {:induction false} DivisionSplitMatchesMasks(rgb: Int32)
    requires IsRgb24(rgb)
    ensures DivRed(rgb) == UnpackRedByte(rgb)
    ensures DivGreen(rgb) == UnpackGreenByte(rgb)
    ensures DivBlue(rgb) == UnpackBlueByte(rgb)
  {
    var low := rgb % 0x1_0000;
    assert JavaRem(rgb, RED_DIVISOR) == low;
    assert rgb == (rgb / 0x1_0000) * 0x1_0000 + low;
    assert rgb == ((rgb / 0x1_0000) * 0x100 + low / 0x100) * 0x100 + low % 0x100;
    DivMulAdd((rgb / 0x1_0000) * 0x100 + low / 0x100, low % 0x100, 0x100);
    assert rgb / 0x100 == (rgb / 0x1_0000) * 0x100 + low / 0x100 && rgb % 0x100 == low % 0x100;
    DivMulAdd(rgb / 0x1_0000, low / 0x100, 0x100);
    DivMulAdd(0, rgb / 0x1_0000, 0x100);
  }

  /** The transparency test of `patch`: the pixel's channels, as the division
    * split computes them, equal the key. */
  predicate IsTransparent(rgb: Int32, keyRed: int, keyGreen: int, keyBlue: int)
  {
    DivRed(rgb) == keyRed && DivGreen(rgb) == keyGreen && DivBlue(rgb) == keyBlue
  }

  /** For a pixel with a clear top byte and a key of three bytes, the test
    * holds exactly when the pixel is the packed key. */
  lemma {:induction false} TransparentIffPackedKey(rgb: Int32, keyRed: int, keyGreen: int, keyBlue: int)
    requires IsRgb24(rgb) && IsByte(keyRed) && IsByte(keyGreen) && IsByte(keyBlue)
    ensures IsTransparent(rgb, keyRed, keyGreen, keyBlue) <==> rgb == PackInt(keyRed, keyGreen, keyBlue)
  {
    DivisionSplitMatchesMasks(rgb);
    PackIntUnpack(rgb);
    UnpackPackInt(keyRed, keyGreen, keyBlue);
  }
}
