/** Where DrawTextLine puts each character: the pixels it writes are the
    union, over the characters, of each glyph drawn with its cell at (x, y)
    plus the cursor that the characters before it leave. */
module TextPlacement {

  import opened CTypes
  import opened TextLayout

  /** The pixels written for character k of the text: its glyph with the
      cell at (x, y) plus the cursor after the first k characters. */
  function CharAt(f: Font, x: int, y: int, text: seq<CChar>, scale: nat, k: nat): seq<(int, int)>
    requires FontOk(f) && k < |text|
  {
    var c := Cursor(text[..k], scale);
    CharPoints(f, text[k], x + c.0, y + c.1, scale)
  }

  /** Drawing a non-empty text: a pixel is written by its first character
      or by the rest, drawn from the cursor after the first. */
  lemma PointsFromFirst(f: Font, x: int, y: int, text: seq<CChar>, scale: nat, sx: int, sy: int, p: (int, int))
    requires FontOk(f) && text != []
    ensures var next := Advance((sx, sy), text[0], scale);
            p in PointsFrom(f, x, y, text, scale, sx, sy) <==>
            p in CharPoints(f, text[0], x + sx, y + sy, scale) || p in PointsFrom(f, x, y, text[1..], scale, next.0, next.1)
  {
  }

  /** The cursor after k + 1 characters is the cursor after k advanced past
      character k. */
  lemma CursorStep(text: seq<CChar>, scale: nat, k: nat)
    requires k < |text|
    ensures Cursor(text[..k + 1], scale) == Advance(Cursor(text[..k], scale), text[k], scale)
  {
    assert text[..k + 1][..k] == text[..k];
  }

  /** From the cursor after the first k characters on, the rest of the text
      writes exactly the pixels of characters k onwards, each at its own
      cursor. */
  lemma {:induction false} SuffixMembers(f: Font, x: int, y: int, text: seq<CChar>, scale: nat, k: nat, p: (int, int))
    requires FontOk(f) && k <= |text|
    ensures var c := Cursor(text[..k], scale);
            p in PointsFrom(f, x, y, text[k..], scale, c.0, c.1) <==> exists i :: k <= i < |text| && p in CharAt(f, x, y, text, scale, i)
    decreases |text| - k
  {
    if k == |text| {
      assert text[k..] == [];
    } else {
      SuffixMembers(f, x, y, text, scale, k + 1, p);
      var c := Cursor(text[..k], scale);
      assert text[k..][0] == text[k] && text[k..][1..] == text[k + 1..];
      PointsFromFirst(f, x, y, text[k..], scale, c.0, c.1, p);
      CursorStep(text, scale, k);
      assert (c.0, c.1) == c;
      SuffixExists(f, x, y, text, scale, k, p);
    }
  }

  /** Character k, or one of those after it. */
  lemma SuffixExists(f: Font, x: int, y: int, text: seq<CChar>, scale: nat, k: nat, p: (int, int))
    requires FontOk(f) && k < |text|
    ensures (exists i :: k <= i < |text| && p in CharAt(f, x, y, text, scale, i)) <==>
            p in CharAt(f, x, y, text, scale, k) || exists i :: k + 1 <= i < |text| && p in CharAt(f, x, y, text, scale, i)
  {
    if exists i :: k <= i < |text| && p in CharAt(f, x, y, text, scale, i) {
      var i :| k <= i < |text| && p in CharAt(f, x, y, text, scale, i);
      if i != k {
        assert k + 1 <= i < |text| && p in CharAt(f, x, y, text, scale, i);
      }
    }
  }

  /** DrawTextLine writes a pixel exactly when some character writes it with
      its cell at (x, y) plus the cursor that character sees. */
  lemma TextMembers(f: Font, x: int, y: int, text: seq<CChar>, scale: nat, p: (int, int))
    requires FontOk(f)
    ensures p in Points(f, x, y, text, scale) <==> exists k :: 0 <= k < |text| && p in CharAt(f, x, y, text, scale, k)
  {
    SuffixMembers(f, x, y, text, scale, 0, p);
    assert text[..0] == [] && text[0..] == text;
  }

  /** Pixel p lies in the cell of character k and magnifies a lit pixel of
      its glyph. */
  predicate InCharCell(f: Font, x: int, y: int, text: seq<CChar>, scale: nat, k: nat, p: (int, int))
    requires FontOk(f) && k < |text|
  {
    var c := Cursor(text[..k], scale);
    text[k] != NewLine && InCell(f, text[k], x + c.0, y + c.1, scale, p)
  }

  lemma CharAtExact(f: Font, x: int, y: int, text: seq<CChar>, scale: nat, k: nat, p: (int, int))
    requires FontOk(f) && k < |text|
    ensures p in CharAt(f, x, y, text, scale, k) <==> InCharCell(f, x, y, text, scale, k, p)
  {
    var c := Cursor(text[..k], scale);
    var cx, cy := x + c.0, y + c.1;
    // unfolds CharAt at the cursor; without it the solver searches far longer
    assert p in CharAt(f, x, y, text, scale, k) <==> p in CharPoints(f, text[k], cx, cy, scale);
    if text[k] != NewLine {
      CharPointsExact(f, text[k], cx, cy, scale, p);
    }
  }

  /** The whole text: a pixel is written exactly when it lies in the
      8z-by-8z cell of some character other than a newline, placed at
      (x, y) plus that character's cursor, and magnifies a lit glyph pixel. */
  lemma TextPointsExact(f: Font, x: int, y: int, text: seq<CChar>, scale: nat, p: (int, int))
    requires FontOk(f)
    ensures p in Points(f, x, y, text, scale) <==> exists k :: 0 <= k < |text| && InCharCell(f, x, y, text, scale, k, p)
  {
    TextMembers(f, x, y, text, scale, p);
    forall k | 0 <= k < |text|
      ensures p in CharAt(f, x, y, text, scale, k) <==> InCharCell(f, x, y, text, scale, k, p)
    {
      CharAtExact(f, x, y, text, scale, k, p);
    }
  }

  /** With scale 0 the cursor never moves, so character k is drawn with its
      cell at (x, y). */
  lemma CharAtZeroScale(f: Font, x: int, y: int, text: seq<CChar>, k: nat, p: (int, int))
    requires FontOk(f) && k < |text|
    ensures p in CharAt(f, x, y, text, 0, k) <==> p in CharPoints(f, text[k], x, y, 0)
  {
    CursorZeroScale(text[..k]);
  }

  /** With scale 0 every character is drawn with its cell at (x, y). */
  lemma TextZeroScale(f: Font, x: int, y: int, text: seq<CChar>, p: (int, int))
    requires FontOk(f)
    ensures p in Points(f, x, y, text, 0) <==> exists k :: 0 <= k < |text| && p in CharPoints(f, text[k], x, y, 0)
  {
    TextMembers(f, x, y, text, 0, p);
    forall k | 0 <= k < |text|
      ensures p in CharAt(f, x, y, text, 0, k) <==> p in CharPoints(f, text[k], x, y, 0)
    {
      CharAtZeroScale(f, x, y, text, k, p);
    }
  }
}
