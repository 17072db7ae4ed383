/**
 * The data array handed to the png, jpg and bmp encoders: the image flattened row by row,
 * column by column, channel by channel; for bmp every pixel's channels are reversed first,
 * in place.
 */
module Encoding {
  import opened Pixels
  import opened Extensions

  /** What an encoder receives: the format chosen, the dimensions and the channel bytes. */
  datatype Payload = Payload(format: Format, width: int, height: int, data: seq<byte>)

  /** `g.flat()`: the rows' pixels one after another, width pixels per row of a rectangular grid. */
  function RowMajor(g: Grid): (pixels: seq<Pixel>)
    ensures forall width :: Rectangular(g, width) ==> |pixels| == |g| * width
  {
    if g == [] then [] else RowMajorStep(g); g[0] + RowMajor(g[1..])
  }

  /** Dropping the first row of a rectangular grid leaves |g| - 1 rows of the same width. */
  lemma RowMajorStep(g: Grid)
    requires g != []
    ensures forall width :: Rectangular(g, width) ==>
      Rectangular(g[1..], width) && |g| * width == |g[0]| + (|g| - 1) * width
  {
    forall width | Rectangular(g, width)
      ensures Rectangular(g[1..], width) && |g| * width == |g[0]| + (|g| - 1) * width
    {
      RowBelow(|g|, width, 0);
    }
  }

  /** `pixels.flat()`: the pixels' four channels one after another, four bytes per pixel. */
  function FlatPixels(ps: seq<Pixel>): (bytes: seq<byte>)
    ensures |bytes| == 4 * |ps|
  {
    if ps == [] then [] else [ps[0].red, ps[0].green, ps[0].blue, ps[0].alpha] + FlatPixels(ps[1..])
  }

  /** `g.flat(2)`, the png and jpg payload: four bytes per cell of a rectangular grid. */
  function FlatGrid(g: Grid): (bytes: seq<byte>)
    ensures forall width :: Rectangular(g, width) ==> |bytes| == |g| * width * 4
  {
    FlatPixels(RowMajor(g))
  }

  /** Where channel ch of pixel (r, c) lands in a flattened image of the given width. */
  function ByteIndex(width: int, r: int, c: int, ch: int): int {
    (r * width + c) * 4 + ch
  }

  /** Pixel (r, c) of a rectangular grid is element r * width + c of its row-major list. */
  lemma {:induction false} RowMajorAt(g: Grid, width: int, r: int, c: int)
    requires Rectangular(g, width) && 0 <= r < |g| && 0 <= c < width
    ensures r * width + c < |RowMajor(g)|
    ensures RowMajor(g)[r * width + c] == g[r][c]
  {
    if r > 0 {
      RowMajorAt(g[1..], width, r - 1, c);
      RowBelow(r, width, c);
    }
  }

  lemma RowBelow(r: int, width: int, c: int)
    ensures r * width + c == width + ((r - 1) * width + c)
  {
  }

  /** Channel ch of pixel i is byte 4 * i + ch of the flattened pixels. */
  lemma {:induction false} FlatPixelsAt(ps: seq<Pixel>, i: int, ch: int)
    requires 0 <= i < |ps| && 0 <= ch < 4
    ensures FlatPixels(ps)[4 * i + ch] == Channel(ps[i], ch)
  {
    if i > 0 {
      FlatPixelsAt(ps[1..], i - 1, ch);
    }
  }

  /**
   * The png/jpg layout: height * width * 4 bytes, channel ch of pixel (r, c) at
   * (r * width + c) * 4 + ch.
   */
  lemma FlatGridLayout(g: Grid, width: int, r: int, c: int, ch: int)
    requires Rectangular(g, width) && 0 <= r < |g| && 0 <= c < width && 0 <= ch < 4
    ensures |FlatGrid(g)| == |g| * width * 4
    ensures ByteIndex(width, r, c, ch) < |FlatGrid(g)| &&
      FlatGrid(g)[ByteIndex(width, r, c, ch)] == Channel(g[r][c], ch)
  {
    var ps := RowMajor(g);
    RowMajorAt(g, width, r, c);
    var i := r * width + c;
    FlatPixelsAt(ps, i, ch);
    var k := ByteIndex(width, r, c, ch);
    assert k == 4 * i + ch;
    assert k < |FlatPixels(ps)|;
    assert FlatGrid(g) == FlatPixels(ps);
  }

  /** Every pixel of the grid with its channels reversed. */
  function ReversedGrid(g: Grid): (g': Grid)
    ensures |g'| == |g| && forall r :: 0 <= r < |g| ==> |g'[r]| == |g[r]|
    ensures forall r, c, ch :: 0 <= r < |g| && 0 <= c < |g[r]| && 0 <= ch < 4 ==>
      Channel(g'[r][c], ch) == Channel(g[r][c], 3 - ch)
  {
    seq(|g|, r requires 0 <= r < |g| => seq(|g[r]|, c requires 0 <= c < |g[r]| => Reversed(g[r][c])))
  }

  /** Reversing every pixel twice gives the image back. */
  lemma ReversedGridTwice(g: Grid)
    ensures ReversedGrid(ReversedGrid(g)) == g
  {
    var twice := ReversedGrid(ReversedGrid(g));
    forall r | 0 <= r < |g|
      ensures twice[r] == g[r]
    {
      forall c | 0 <= c < |g[r]|
        ensures twice[r][c] == g[r][c]
      {
        ReversedTwice(g[r][c]);
      }
    }
  }

  /**
   * The bmp layout: the same positions as png/jpg, but each pixel's channels in the opposite
   * order (ABGR).
   */
  lemma BmpLayout(g: Grid, width: int, r: int, c: int, ch: int)
    requires Rectangular(g, width) && 0 <= r < |g| && 0 <= c < width && 0 <= ch < 4
    ensures |FlatGrid(ReversedGrid(g))| == |g| * width * 4
    ensures ByteIndex(width, r, c, ch) < |FlatGrid(ReversedGrid(g))| &&
      FlatGrid(ReversedGrid(g))[ByteIndex(width, r, c, ch)] == Channel(g[r][c], 3 - ch)
  {
    FlatGridLayout(ReversedGrid(g), width, r, c, ch);
  }

  /** `.map(x => x.reverse())` over the image's pixels: reverses each pixel in place. */
  method ReversePixelsInPlace(img: array2<Pixel>)
    modifies img
    ensures forall r, c :: 0 <= r < img.Length0 && 0 <= c < img.Length1 ==> img[r, c] == Reversed(old(img[r, c]))
  {
    for r := 0 to img.Length0
      invariant forall r', c :: 0 <= r' < img.Length0 && 0 <= c < img.Length1 ==>
        img[r', c] == if r' < r then Reversed(old(img[r', c])) else old(img[r', c])
    {
      for c := 0 to img.Length1
        invariant forall r', c' :: 0 <= r' < img.Length0 && 0 <= c' < img.Length1 ==>
          img[r', c'] == if r' < r || (r' == r && c' < c) then Reversed(old(img[r', c'])) else old(img[r', c'])
      {
        img[r, c] := Reversed(img[r, c]);
      }
    }
  }

  /**
   * `encodedData(format)` / `saveEncodings(format)`: the data array passed to the encoder of
   * the chosen format.
   */
  method EncodedData(img: array2<Pixel>, format: Format) returns (p: Payload)
    modifies img
    ensures p.format == format && p.width == img.Length1 && p.height == img.Length0
    ensures p.data == FlatGrid(if format == Bmp then ReversedGrid(old(Snapshot(img))) else old(Snapshot(img)))
    ensures |p.data| == img.Length0 * img.Length1 * 4
    ensures forall r, c, ch :: 0 <= r < img.Length0 && 0 <= c < img.Length1 && 0 <= ch < 4 ==>
      ByteIndex(img.Length1, r, c, ch) < |p.data| &&
      p.data[ByteIndex(img.Length1, r, c, ch)] == Channel(old(img[r, c]), if format == Bmp then 3 - ch else ch)
    ensures format != Bmp ==> unchanged(img)
    ensures format == Bmp ==> forall r, c :: 0 <= r < img.Length0 && 0 <= c < img.Length1 ==>
      img[r, c] == Reversed(old(img[r, c]))
    ensures Snapshot(img) == if format == Bmp then ReversedGrid(old(Snapshot(img))) else old(Snapshot(img))
  {
    ghost var before := Snapshot(img);
    var width, height := img.Length1, img.Length0;
    if format == Bmp {
      ReversePixelsInPlace(img);
      assert Snapshot(img) == ReversedGrid(before) by {
        forall r | 0 <= r < height
          ensures Snapshot(img)[r] == ReversedGrid(before)[r]
        {
        }
      }
    }
    assert Rectangular(Snapshot(img), width);
    p := Payload(format, width, height, FlatGrid(Snapshot(img)));
    forall r, c, ch | 0 <= r < height && 0 <= c < width && 0 <= ch < 4
      ensures ByteIndex(width, r, c, ch) < |p.data| &&
        p.data[ByteIndex(width, r, c, ch)] == Channel(before[r][c], if format == Bmp then 3 - ch else ch)
    {
      if format == Bmp {
        BmpLayout(before, width, r, c, ch);
      } else {
        FlatGridLayout(before, width, r, c, ch);
      }
    }
  }
}
