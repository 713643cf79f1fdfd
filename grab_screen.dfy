/**
  `GrabScreen.darkenImage`: every pixel of a width x height image of packed
  32-bit ARGB colours becomes `(color >> 1) & 0x7F7F7F`, which halves the red,
  green and blue channels and clears the alpha byte.  The image is an
  `array2<bv32>` indexed `[x, y]` as `getRGB(x, y)` is, so `Length0` is the
  width and `Length1` the height.
*/
module GrabScreen {

  /** `color >> 1` on a Java `int`: an arithmetic shift, which copies the sign bit. */
  function ShiftRightSigned(color: bv32): (r: bv32)
    ensures r & 0x7FFF_FFFF == color >> 1
    ensures r & 0x8000_0000 == color & 0x8000_0000
  {
    (color >> 1) | (color & 0x8000_0000)
  }

  /** The new value of one pixel: `color = color >> 1; color = color & 0x7F7F7F;`. */
  function Darken(color: bv32): (d: bv32)
    ensures d <= 0x7F7F7F
  {
    ShiftRightSigned(color) & 0x7F7F7F
  }

  function Alpha(c: bv32): bv32 { c >> 24 }
  function Red(c: bv32): bv32 { (c >> 16) & 0xFF }
  function Green(c: bv32): bv32 { (c >> 8) & 0xFF }
  function Blue(c: bv32): bv32 { c & 0xFF }

  /** Each colour channel is halved (rounding down) and the alpha byte becomes 0. */
  lemma DarkenHalvesChannels(color: bv32)
    ensures Red(Darken(color)) == Red(color) / 2
    ensures Green(Darken(color)) == Green(color) / 2
    ensures Blue(Darken(color)) == Blue(color) / 2
    ensures Alpha(Darken(color)) == 0
  {
  }

  /** A darkened channel is at most 127, so the darkened pixel is at most 0x7F7F7F. */
  lemma DarkenedChannelsBounded(color: bv32)
    ensures Red(Darken(color)) <= 127 && Green(Darken(color)) <= 127 && Blue(Darken(color)) <= 127
  {
    DarkenHalvesChannels(color);
  }

  /** The mask clears bit 31, so an unsigned shift would darken a pixel just the same. */
  lemma DarkenIgnoresShiftKind(color: bv32)
    ensures Darken(color) == (color >> 1) & 0x7F7F7F
  {
  }

  /** A pixel darkened once more is a different colour, unless it was black already. */
  lemma OnlyBlackIsFixed(color: bv32)
    ensures Darken(Darken(color)) == Darken(color) <==> Darken(color) == 0
  {
  }

  /** `darkenImage`: rows y = 0 .. height-1, and in each row x = 0 .. width-1. */
  method DarkenImage(image: array2<bv32>)
    modifies image
    ensures forall x, y :: 0 <= x < image.Length0 && 0 <= y < image.Length1 ==>
              image[x, y] == Darken(old(image[x, y]))
  {
    var width := image.Length0;
    var height := image.Length1;
    for y := 0 to height
      invariant forall i, j :: 0 <= i < width && 0 <= j < y ==> image[i, j] == Darken(old(image[i, j]))
      invariant forall i, j :: 0 <= i < width && y <= j < height ==> image[i, j] == old(image[i, j])
    {
      for x := 0 to width
        invariant forall i, j :: 0 <= i < width && 0 <= j < y ==> image[i, j] == Darken(old(image[i, j]))
        invariant forall i :: 0 <= i < x ==> image[i, y] == Darken(old(image[i, y]))
        invariant forall i, j :: 0 <= i < width && y <= j < height && (j > y || i >= x) ==> image[i, j] == old(image[i, j])
      {
        var color := image[x, y];
        color := Darken(color);
        image[x, y] := color;
      }
    }
  }
}
