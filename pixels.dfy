/** Optional values, for the command-line overrides that may be absent. */
module Options {
  datatype Option<T> = None | Some(value: T) {
    /** The value if present, otherwise `default` (Rust's `unwrap_or`). */
    function UnwrapOr(default: T): (r: T)
      ensures Some? ==> r == value
      ensures None? ==> r == default
    {
      match this
      case Some(v) => v
      case None => default
    }
  }
}

/** Decoded images as the encoders see them: rows of 8-bit RGB samples. */
module Pixels {

  /** One pixel after conversion to 8-bit RGB; `r`, `g`, `b` are `pixel[0]`, `pixel[1]`, `pixel[2]`. */
  datatype Rgb = Rgb(r: bv8, g: bv8, b: bv8)

  /** An image with its dimensions and its rows, top to bottom, each row left to right. */
  datatype Image = Image(width: nat, height: nat, rows: seq<seq<Rgb>>)
  {
    /** The rows agree with the dimensions the image reports. */
    predicate Valid()
    {
      |rows| == height && RowsOfWidth(rows, width)
    }

    /** The pixel at column `x` of row `y`. */
    function At(x: nat, y: nat): Rgb
      requires Valid() && x < width && y < height
    {
      rows[y][x]
    }
  }

  predicate RowsOfWidth(rows: seq<seq<Rgb>>, w: nat)
  {
    forall y :: 0 <= y < |rows| ==> |rows[y]| == w
  }

  /** The pixels of `rows` in row-major order: `y` outer, `x` inner. */
  function Flatten(rows: seq<seq<Rgb>>): seq<Rgb>
  {
    if rows == [] then [] else Flatten(rows[..|rows| - 1]) + rows[|rows| - 1]
  }

  /** The pixels of an image in the order both encoders visit them. */
  function PixelsOf(img: Image): seq<Rgb>
  {
    Flatten(img.rows)
  }

  /** Flattening one more row appends that row. */
  lemma FlattenSnoc(rows: seq<seq<Rgb>>, y: nat)
    requires y < |rows|
    ensures Flatten(rows[..y + 1]) == Flatten(rows[..y]) + rows[y]
  {
    assert rows[..y + 1][..y] == rows[..y];
  }

  /** Visiting pixel `x` of a row extends the visited prefix by that pixel. */
  lemma RowPrefixSnoc(before: seq<Rgb>, row: seq<Rgb>, x: nat)
    requires x < |row|
    ensures before + row[..x + 1] == (before + row[..x]) + [row[x]]
  {
    assert row[..x + 1] == row[..x] + [row[x]];
  }

  /** A grid of `h` rows of `w` pixels flattens to `h * w` pixels. */
  lemma {:induction false} FlattenLength(rows: seq<seq<Rgb>>, w: nat)
    requires RowsOfWidth(rows, w)
    ensures |Flatten(rows)| == |rows| * w
  {
    if rows != [] {
      var n := |rows| - 1;
      FlattenLength(rows[..n], w);
      assert |Flatten(rows)| == n * w + w;
    }
  }

  /** Row-major order: pixel `(x, y)` has index `y * w + x` in the flattened image. */
  lemma {:induction false} FlattenAt(rows: seq<seq<Rgb>>, w: nat, x: nat, y: nat)
    requires RowsOfWidth(rows, w)
    requires y < |rows| && x < w
    ensures y * w + x < |Flatten(rows)|
    ensures Flatten(rows)[y * w + x] == rows[y][x]
  {
    var n := |rows| - 1;
    FlattenLength(rows[..n], w);
    FlattenLength(rows, w);
    if y < n {
      FlattenAt(rows[..n], w, x, y);
      MulStep(y, n, w);
    }
  }

  /** Row `y` before row `n` ends by the time row `n` starts. */
  lemma {:induction false} MulStep(y: nat, n: nat, w: nat)
    requires y < n
    ensures y * w + w <= n * w
  {
    assert n * w == (n - 1) * w + w;
    if y < n - 1 {
      MulStep(y, n - 1, w);
    }
  }

  /** Every pixel of a valid image is at its row-major index in `PixelsOf`. */
  lemma PixelsOfAt(img: Image, x: nat, y: nat)
    requires img.Valid() && x < img.width && y < img.height
    ensures |PixelsOf(img)| == img.width * img.height
    ensures y * img.width + x < |PixelsOf(img)|
    ensures PixelsOf(img)[y * img.width + x] == img.At(x, y)
  {
    FlattenLength(img.rows, img.width);
    FlattenAt(img.rows, img.width, x, y);
  }
}
