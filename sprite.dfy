/** The sprite raster: two parallel row-major planes, colour and alpha, each
    Width*Height long. Reads outside the sprite give the sentinels 0 and
    false, and writes outside it are dropped. */
module Sprites {

  import opened Raster

  class Sprite {
    var Width: int
    var Height: int
    var Colors: array<int>
    var Alpha: array<bool>

    ghost predicate Valid()
      reads this
    {
      0 <= Width && 0 <= Height &&
      Colors.Length == Width * Height && Alpha.Length == Width * Height
    }

    /** Sprite(width, height): a blank sprite, every pixel colour 0 and
        transparent. */
    constructor (width: int, height: int)
      requires 0 <= width && 0 <= height
      ensures Valid() && Width == width && Height == height
      ensures fresh(Colors) && fresh(Alpha)
      ensures Colors[..] == seq(width * height, _ => 0) && Alpha[..] == seq(width * height, _ => false)
      ensures forall x, y :: GetPixelColor(x, y) == 0
      ensures forall x, y :: !GetPixelAlpha(x, y)
    {
      Width := width;
      Height := height;
      var colors, alpha := Create(width, height);
      Colors := colors;
      Alpha := alpha;
      new;
      assert Colors[..] == seq(width * height, _ => 0);
      assert Alpha[..] == seq(width * height, _ => false);
      forall x, y
        ensures GetPixelColor(x, y) == 0 && !GetPixelAlpha(x, y)
      {
        if InBounds(width, height, x, y) {
          IndexInRange(width, height, x, y);
        }
      }
    }

    /** Create: allocate both planes and clear them in one loop. */
    static method Create(width: int, height: int) returns (colors: array<int>, alpha: array<bool>)
      requires 0 <= width && 0 <= height
      ensures fresh(colors) && fresh(alpha)
      ensures colors.Length == width * height && alpha.Length == width * height
      ensures forall i :: 0 <= i < colors.Length ==> colors[i] == 0
      ensures forall i :: 0 <= i < alpha.Length ==> !alpha[i]
    {
      colors := new int[width * height];
      alpha := new bool[width * height];
      var i := 0;
      while i < width * height
        invariant 0 <= i <= width * height
        invariant forall j :: 0 <= j < i ==> colors[j] == 0
        invariant forall j :: 0 <= j < i ==> !alpha[j]
      {
        colors[i] := 0;
        alpha[i] := false;
        i := i + 1;
      }
    }

    function SpriteWidth(): (w: int)
      requires Valid()
      reads this
      ensures 0 <= w && w * Height == Colors.Length
    {
      Width
    }

    function SpriteHeight(): (h: int)
      requires Valid()
      reads this
      ensures 0 <= h && Width * h == Colors.Length
    {
      Height
    }

    /** The bounds-checked colour read: 0 outside the sprite. */
    function GetPixelColor(x: int, y: int): (c: int)
      requires Valid()
      reads this, Colors
      ensures c == Get(Colors[..], Width, Height, x, y, 0)
      ensures !InBounds(Width, Height, x, y) ==> c == 0
    {
      if x < 0 || x >= Width || y < 0 || y >= Height then 0
      else
        IndexInRange(Width, Height, x, y);
        Colors[y * Width + x]
    }

    /** The bounds-checked alpha read: false outside the sprite. */
    function GetPixelAlpha(x: int, y: int): (a: bool)
      requires Valid()
      reads this, Alpha
      ensures a == Get(Alpha[..], Width, Height, x, y, false)
      ensures !InBounds(Width, Height, x, y) ==> !a
    {
      if x < 0 || x >= Width || y < 0 || y >= Height then false
      else
        IndexInRange(Width, Height, x, y);
        Alpha[y * Width + x]
    }

    /** SetPixel writes the colour and marks the pixel opaque; outside the
        sprite it does nothing. */
    method SetPixel(x: int, y: int, color: int)
      requires Valid()
      modifies Colors, Alpha
      ensures Valid()
      ensures Colors[..] == Put(old(Colors[..]), Width, Height, x, y, color)
      ensures Alpha[..] == Put(old(Alpha[..]), Width, Height, x, y, true)
      ensures InBounds(Width, Height, x, y) ==> GetPixelColor(x, y) == color && GetPixelAlpha(x, y)
      ensures forall px, py :: (px, py) != (x, y) ==> GetPixelColor(px, py) == old(GetPixelColor(px, py))
      ensures forall px, py :: (px, py) != (x, y) ==> GetPixelAlpha(px, py) == old(GetPixelAlpha(px, py))
    {
      ghost var colors, alpha := Colors[..], Alpha[..];
      if x < 0 || x >= Width || y < 0 || y >= Height {
        return;
      }
      IndexInRange(Width, Height, x, y);
      Alpha[y * Width + x] := true;
      Colors[y * Width + x] := color;
      forall px, py
        ensures Get(Colors[..], Width, Height, px, py, 0) ==
                if px == x && py == y then color else Get(colors, Width, Height, px, py, 0)
        ensures Get(Alpha[..], Width, Height, px, py, false) ==
                if px == x && py == y then true else Get(alpha, Width, Height, px, py, false)
      {
        GetPut(colors, Width, Height, x, y, color, px, py, 0);
        GetPut(alpha, Width, Height, x, y, true, px, py, false);
      }
    }
  }
}
