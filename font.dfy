/** Decoding of the baked font string by Engine::CreateFontSheet.

    Every group of four characters gives four 6-bit digits (character minus
    48, computed in uint32_t) packed into one word, first digit highest:
    d0 << 18 | d1 << 12 | d2 << 6 | d3. The word's 24 low bits, lowest first,
    are the next 24 pixels of a 128x48 sheet filled column by column: pixel
    number p is (p / 48, p % 48). A set bit gives colour 765 (255 + 255 + 255),
    a clear bit colour 0. */
module FontSheet {

  import opened Arith
  import opened Raster

  const SheetWidth: int := 128
  const SheetHeight: int := 48
  const DataLength: int := 1024
  const BitsPerGroup: int := 24
  const PixelCount: int := 6144  // 256 groups of 24 bits, 128 * 48 pixels

  /** `(uint32_t)data[b] - 48`: the char, signed under MSVC, is sign-extended
      to 32 bits and the subtraction wraps modulo 2^32. */
  function Digit(c: bv8): bv32 {
    (if c >= 0x80 then (c as bv32) | 0xFFFF_FF00 else c as bv32) - 48
  }

  /** Four digits packed first-highest, six bits apart. */
  function Pack(d0: bv32, d1: bv32, d2: bv32, d3: bv32): bv32 {
    (d0 << 18) | (d1 << 12) | (d2 << 6) | d3
  }

  /** The word `r` of group g, from characters 4g .. 4g+3. */
  function Word(data: seq<bv8>, g: int): bv32
    requires 0 <= g && 4 * g + 3 < |data|
  {
    Pack(Digit(data[4 * g]), Digit(data[4 * g + 1]), Digit(data[4 * g + 2]), Digit(data[4 * g + 3]))
  }

  /** The word as CreateFontSheet computes it from characters b .. b + 3. */
  lemma WordAt(data: seq<bv8>, b: int, g: int)
    requires 0 <= g && b == 4 * g && b + 3 < |data|
    ensures Word(data, g) == Pack(Digit(data[b + 0]), Digit(data[b + 1]), Digit(data[b + 2]), Digit(data[b + 3]))
  {
  }

  /** `r & (1 << i)` taken as a truth value. */
  predicate Bit(r: bv32, i: int)
    requires 0 <= i < 32
  {
    r & (1 << i) != 0
  }

  /** The colour of fill pixel p: 765 for a set bit, 0 for a clear one. */
  function PixelColor(data: seq<bv8>, p: int): (color: int)
    requires |data| == DataLength && 0 <= p < PixelCount
    ensures color == 765 || color == 0
    ensures color == 765 <==> Bit(Word(data, p / BitsPerGroup), p % BitsPerGroup)
  {
    var k := if Bit(Word(data, p / BitsPerGroup), p % BitsPerGroup) then 255 else 0;
    k + k + k
  }

  /** The bytes of the baked string, '0' to 'o', are the digits 0..63. */
  predicate Digits(data: seq<bv8>) {
    forall k :: 0 <= k < |data| ==> 48 <= data[k] < 112
  }

  lemma DigitValue(c: bv8)
    requires 48 <= c < 112
    ensures Digit(c) == (c - 48) as bv32 && Digit(c) < 64
  {
  }

  /** With 6-bit digits the OR of the shifted digits is their positional sum
      in base 64, which stays below 2^24: no bit at or above 24 is ever set,
      so the 24 bits read per group are the whole word. */
  lemma PackValue(d0: bv32, d1: bv32, d2: bv32, d3: bv32)
    requires d0 < 64 && d1 < 64 && d2 < 64 && d3 < 64
    ensures Pack(d0, d1, d2, d3) == d0 * 0x4_0000 + d1 * 0x1000 + d2 * 0x40 + d3
    ensures Pack(d0, d1, d2, d3) < 0x100_0000
  {
  }

  /** Bit i of the packed word is bit i mod 6 of digit 3 - i / 6. */
  lemma PackBit(d0: bv32, d1: bv32, d2: bv32, d3: bv32, i: bv32)
    requires d0 < 64 && d1 < 64 && d2 < 64 && d3 < 64 && i < 24
    ensures Pack(d0, d1, d2, d3) & (1 << i) != 0 <==>
            if i < 6 then d3 & (1 << i) != 0
            else if i < 12 then d2 & (1 << (i - 6)) != 0
            else if i < 18 then d1 & (1 << (i - 12)) != 0
            else d0 & (1 << (i - 18)) != 0
  {
  }

  lemma WordValue(data: seq<bv8>, g: int)
    requires 0 <= g && 4 * g + 3 < |data| && Digits(data)
    ensures Word(data, g) < 0x100_0000
  {
    var c0, c1, c2, c3 := data[4 * g], data[4 * g + 1], data[4 * g + 2], data[4 * g + 3];
    DigitValue(c0);
    DigitValue(c1);
    DigitValue(c2);
    DigitValue(c3);
    PackValue(Digit(c0), Digit(c1), Digit(c2), Digit(c3));
  }

  /** Pixel p of the fill goes to column p / 48, row p % 48, and this is a
      one-to-one correspondence between the 6144 bits and the sheet's pixels:
      each pixel is set exactly once. */
  lemma FillOrder(px: int, py: int)
    requires 0 <= px < SheetWidth && 0 <= py < SheetHeight
    ensures 0 <= px * SheetHeight + py < PixelCount
    ensures (px * SheetHeight + py) / SheetHeight == px && (px * SheetHeight + py) % SheetHeight == py
  {
    DivModUnique(px * SheetHeight + py, SheetHeight, px, py);
  }

  lemma FillOrderInverse(p: int)
    requires 0 <= p < PixelCount
    ensures 0 <= p / SheetHeight < SheetWidth && 0 <= p % SheetHeight < SheetHeight
    ensures (p / SheetHeight) * SheetHeight + p % SheetHeight == p
  {
  }

  /** The colours of the 6144 fill pixels, in fill order. */
  function FillColors(data: seq<bv8>): (pix: seq<int>)
    requires |data| == DataLength
    ensures |pix| == PixelCount
    ensures forall p :: 0 <= p < PixelCount ==> pix[p] == PixelColor(data, p)
  {
    seq(PixelCount, p requires 0 <= p < PixelCount => PixelColor(data, p))
  }

  /** The sheet's colour plane after the first n fill steps, starting from
      the blank sprite: fill pixel p gets colour pix[p]. */
  function SheetColors(pix: seq<int>, n: int): (colors: seq<int>)
    requires |pix| == PixelCount && 0 <= n <= PixelCount
    ensures |colors| == SheetWidth * SheetHeight
  {
    if n == 0 then seq(PixelCount, _ => 0)
    else
      var p := n - 1;
      Put(SheetColors(pix, p), SheetWidth, SheetHeight, p / SheetHeight, p % SheetHeight, pix[p])
  }

  /** The sheet's alpha plane after the first n fill steps: SetPixel marks
      every pixel it writes opaque. */
  function SheetAlpha(n: int): (alpha: seq<bool>)
    requires 0 <= n <= PixelCount
    ensures |alpha| == SheetWidth * SheetHeight
  {
    if n == 0 then seq(PixelCount, _ => false)
    else
      var p := n - 1;
      Put(SheetAlpha(p), SheetWidth, SheetHeight, p / SheetHeight, p % SheetHeight, true)
  }

  /** Bit i of group g's word is the colour of fill pixel g * 24 + i. */
  lemma FillColorAt(data: seq<bv8>, pix: seq<int>, g: int, r: bv32, i: int)
    requires |data| == DataLength && pix == FillColors(data)
    requires 0 <= g < PixelCount / BitsPerGroup && r == Word(data, g) && 0 <= i < BitsPerGroup
    ensures 0 <= g * BitsPerGroup + i < PixelCount
    ensures pix[g * BitsPerGroup + i] == if Bit(r, i) then 765 else 0
  {
    DivModUnique(g * BitsPerGroup + i, BitsPerGroup, g, i);
  }

  /** Fill step p writes sheet pixel (px, py) when p is px * 48 + py. */
  lemma SheetStep(pix: seq<int>, p: int, px: int, py: int)
    requires |pix| == PixelCount && 0 <= p < PixelCount
    requires px * SheetHeight + py == p && 0 <= py < SheetHeight
    ensures SheetColors(pix, p + 1) == Put(SheetColors(pix, p), SheetWidth, SheetHeight, px, py, pix[p])
    ensures SheetAlpha(p + 1) == Put(SheetAlpha(p), SheetWidth, SheetHeight, px, py, true)
  {
    DivModUnique(p, SheetHeight, px, py);
  }

  /** After n fill steps exactly the pixels numbered below n are set, each to
      its fill colour; the rest are still blank. */
  lemma {:induction false} SheetColorsAt(pix: seq<int>, n: int, px: int, py: int)
    requires |pix| == PixelCount && 0 <= n <= PixelCount
    requires InBounds(SheetWidth, SheetHeight, px, py)
    ensures Get(SheetColors(pix, n), SheetWidth, SheetHeight, px, py, 0) ==
            if px * SheetHeight + py < n then pix[px * SheetHeight + py] else 0
  {
    FillOrder(px, py);
    if n == 0 {
      IndexInRange(SheetWidth, SheetHeight, px, py);
    } else {
      var p := n - 1;
      FillOrderInverse(p);
      SheetColorsAt(pix, p, px, py);
      GetPut(SheetColors(pix, p), SheetWidth, SheetHeight, p / SheetHeight, p % SheetHeight, pix[p], px, py, 0);
    }
  }

  lemma {:induction false} SheetAlphaAt(n: int, px: int, py: int)
    requires 0 <= n <= PixelCount
    requires InBounds(SheetWidth, SheetHeight, px, py)
    ensures Get(SheetAlpha(n), SheetWidth, SheetHeight, px, py, false) <==> px * SheetHeight + py < n
  {
    FillOrder(px, py);
    if n == 0 {
      IndexInRange(SheetWidth, SheetHeight, px, py);
    } else {
      var p := n - 1;
      FillOrderInverse(p);
      SheetAlphaAt(p, px, py);
      GetPut(SheetAlpha(p), SheetWidth, SheetHeight, p / SheetHeight, p % SheetHeight, true, px, py, false);
    }
  }

  /** The finished sheet: every pixel holds the colour of its fill bit and
      is opaque. */
  lemma SheetComplete(data: seq<bv8>, pix: seq<int>, colors: seq<int>, alpha: seq<bool>, px: int, py: int)
    requires |data| == DataLength && pix == FillColors(data)
    requires colors == SheetColors(pix, PixelCount) && alpha == SheetAlpha(PixelCount)
    requires InBounds(SheetWidth, SheetHeight, px, py)
    ensures Get(colors, SheetWidth, SheetHeight, px, py, 0) == PixelColor(data, px * SheetHeight + py)
    ensures Get(alpha, SheetWidth, SheetHeight, px, py, false)
  {
    FillOrder(px, py);
    SheetColorsAt(pix, PixelCount, px, py);
    SheetAlphaAt(PixelCount, px, py);
  }
}
