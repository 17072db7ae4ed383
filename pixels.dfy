/**
 * The decoded image: rows of columns of RGBA pixels, mutated in place by the masker.
 * It is modelled as an `array2<Pixel>` (Length0 = height, Length1 = width); `Grid` is
 * its value, row by row.
 */
module Pixels {

  type byte = x: int | 0 <= x < 256

  datatype Pixel = Rgba(red: byte, green: byte, blue: byte, alpha: byte)

  /** The pixel the masker writes: [0, 0, 0, 0]. */
  const Transparent: Pixel := Rgba(0, 0, 0, 0)

  function Channel(p: Pixel, ch: int): byte
    requires 0 <= ch < 4
  {
    if ch == 0 then p.red else if ch == 1 then p.green else if ch == 2 then p.blue else p.alpha
  }

  /** The pixel's four channels in the opposite order (JavaScript's `reverse` on a pixel). */
  function Reversed(p: Pixel): (q: Pixel)
    ensures forall ch :: 0 <= ch < 4 ==> Channel(q, ch) == Channel(p, 3 - ch)
  {
    Rgba(p.alpha, p.blue, p.green, p.red)
  }

  lemma ReversedTwice(p: Pixel)
    ensures Reversed(Reversed(p)) == p
  {
  }

  type Grid = seq<seq<Pixel>>

  /** Every row of `g` has exactly `width` columns. */
  predicate Rectangular(g: Grid, width: int) {
    forall r :: 0 <= r < |g| ==> |g[r]| == width
  }

  /** The value of the image, row by row. */
  function Snapshot(img: array2<Pixel>): Grid
    reads img
  {
    seq(img.Length0, r requires 0 <= r < img.Length0 reads img =>
      seq(img.Length1, c requires 0 <= c < img.Length1 reads img => img[r, c]))
  }

  /** `g` with the one pixel at (row, column) made transparent. */
  function ClearAt(g: Grid, row: int, column: int): Grid
    requires 0 <= row < |g| && 0 <= column < |g[row]|
  {
    g[row := g[row][column := Transparent]]
  }

  /** Exactly the addressed cell becomes transparent, every other cell keeps its pixel. */
  lemma ClearAtEffect(g: Grid, row: int, column: int, r: int, c: int)
    requires 0 <= row < |g| && 0 <= column < |g[row]|
    requires 0 <= r < |g| && 0 <= c < |g[r]|
    ensures |ClearAt(g, row, column)| == |g| && |ClearAt(g, row, column)[r]| == |g[r]|
    ensures ClearAt(g, row, column)[r][c] == if r == row && c == column then Transparent else g[r][c]
  {
  }

  /** Clearing a cell twice leaves the same grid as clearing it once. */
  lemma ClearAtIdempotent(g: Grid, row: int, column: int)
    requires 0 <= row < |g| && 0 <= column < |g[row]|
    ensures ClearAt(ClearAt(g, row, column), row, column) == ClearAt(g, row, column)
  {
    var once := ClearAt(g, row, column);
    assert once[row][column := Transparent] == once[row];
  }

  /** Two clears give the same grid in either order. */
  lemma ClearAtCommutes(g: Grid, r0: int, c0: int, r1: int, c1: int)
    requires 0 <= r0 < |g| && 0 <= c0 < |g[r0]|
    requires 0 <= r1 < |g| && 0 <= c1 < |g[r1]|
    ensures ClearAt(ClearAt(g, r0, c0), r1, c1) == ClearAt(ClearAt(g, r1, c1), r0, c0)
  {
    var x := ClearAt(ClearAt(g, r0, c0), r1, c1);
    var y := ClearAt(ClearAt(g, r1, c1), r0, c0);
    forall r | 0 <= r < |g|
      ensures x[r] == y[r]
    {
      assert |x[r]| == |y[r]|;
    }
  }

  /** `nullOut` / `clearPixel`: makes the addressed pixel transparent. */
  method ClearPixel(img: array2<Pixel>, row: int, column: int)
    requires 0 <= row < img.Length0 && 0 <= column < img.Length1
    modifies img
    ensures img[row, column] == Transparent
    ensures forall r, c :: 0 <= r < img.Length0 && 0 <= c < img.Length1 && (r != row || c != column) ==>
      img[r, c] == old(img[r, c])
    ensures Snapshot(img) == ClearAt(old(Snapshot(img)), row, column)
  {
    ghost var before := Snapshot(img);
    img[row, column] := Transparent;
    ghost var after := ClearAt(before, row, column);
    forall r | 0 <= r < img.Length0
      ensures Snapshot(img)[r] == after[r]
    {
      assert |Snapshot(img)[r]| == |after[r]|;
    }
  }

  /**
   * The inner gap-filling loop of both sweeps: makes (nRow, column) transparent for every
   * nRow with from <= nRow < to; nothing when to <= from.
   */
  method ClearRows(img: array2<Pixel>, column: int, from: int, to: int)
    requires 0 <= column < img.Length1
    requires from < to ==> 0 <= from && to <= img.Length0
    modifies img
    ensures forall r, c :: 0 <= r < img.Length0 && 0 <= c < img.Length1 ==>
      img[r, c] == if c == column && from <= r < to then Transparent else old(img[r, c])
  {
    var nRow := from;
    while nRow < to
      invariant from <= nRow && (nRow <= to || nRow == from)
      invariant forall r, c :: 0 <= r < img.Length0 && 0 <= c < img.Length1 ==>
        img[r, c] == if c == column && from <= r < nRow then Transparent else old(img[r, c])
    {
      ClearPixel(img, nRow, column);
      nRow := nRow + 1;
    }
  }

  /** `g` with every cell where `hit` holds made transparent. */
  function ClearWhere(g: Grid, hit: (int, int) -> bool): Grid {
    seq(|g|, r requires 0 <= r < |g| =>
      seq(|g[r]|, c requires 0 <= c < |g[r]| => if hit(r, c) then Transparent else g[r][c]))
  }

  /** Clearing a region a second time changes nothing. */
  lemma ClearWhereIdempotent(g: Grid, hit: (int, int) -> bool)
    ensures ClearWhere(ClearWhere(g, hit), hit) == ClearWhere(g, hit)
  {
    var once := ClearWhere(g, hit);
    var twice := ClearWhere(once, hit);
    forall r | 0 <= r < |g|
      ensures twice[r] == once[r]
    {
    }
  }

  /** Clearing two regions one after the other is clearing their union, in either order. */
  lemma ClearWhereUnion(g: Grid, a: (int, int) -> bool, b: (int, int) -> bool)
    ensures ClearWhere(ClearWhere(g, a), b) == ClearWhere(g, (r, c) => a(r, c) || b(r, c))
    ensures ClearWhere(ClearWhere(g, a), b) == ClearWhere(ClearWhere(g, b), a)
  {
    var ab := ClearWhere(ClearWhere(g, a), b);
    var ba := ClearWhere(ClearWhere(g, b), a);
    var union := ClearWhere(g, (r, c) => a(r, c) || b(r, c));
    forall r | 0 <= r < |g|
      ensures ab[r] == union[r] && ba[r] == union[r]
    {
    }
  }
}
