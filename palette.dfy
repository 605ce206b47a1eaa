/** Packing of a GDI+ colour into the engine's 0xRRGGBB pixel word. The
    three components are taken as plain integers; `& 0xff` on a
    two's-complement integer is the Euclidean remainder modulo 256, which is
    what Dafny's `%` computes. */
module Palette {

  import opened Arith

  function ConvertGdiColorToHex(red: int, green: int, blue: int): (hex: int)
    ensures 0 <= hex < 0x100_0000
  {
    (red % 256) * 0x1_0000 + (green % 256) * 0x100 + blue % 256
  }

  /** Each component survives packing in its own byte: red in bits 16..23,
      green in bits 8..15 and blue in bits 0..7. */
  lemma HexComponents(red: int, green: int, blue: int)
    ensures ConvertGdiColorToHex(red, green, blue) / 0x1_0000 == red % 256
    ensures (ConvertGdiColorToHex(red, green, blue) / 0x100) % 256 == green % 256
    ensures ConvertGdiColorToHex(red, green, blue) % 256 == blue % 256
  {
    var hex := ConvertGdiColorToHex(red, green, blue);
    var r, g, b := red % 256, green % 256, blue % 256;
    DivModUnique(hex, 0x1_0000, r, g * 0x100 + b);
    DivModUnique(hex, 0x100, r * 0x100 + g, b);
    DivModUnique(r * 0x100 + g, 0x100, r, g);
  }

  /** Two colours pack to the same word exactly when their bytes agree. */
  lemma HexInjective(r1: int, g1: int, b1: int, r2: int, g2: int, b2: int)
    ensures ConvertGdiColorToHex(r1, g1, b1) == ConvertGdiColorToHex(r2, g2, b2) <==>
            r1 % 256 == r2 % 256 && g1 % 256 == g2 % 256 && b1 % 256 == b2 % 256
  {
    HexComponents(r1, g1, b1);
    HexComponents(r2, g2, b2);
  }
}
