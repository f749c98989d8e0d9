/** Pixels, images and image files: the values that the delta codec reads, computes and writes. */
module Frames {

  /** 2^32: Java's `int` arithmetic is arithmetic modulo this. */
  const Modulus: int := 0x1_0000_0000

  /** A packed ARGB pixel as `BufferedImage.getRGB` returns it: a Java `int`. */
  type Pixel = x: int | -0x8000_0000 <= x < 0x8000_0000

  /** The Java `int` that an exact integer wraps to. */
  function Wrap(v: int): (r: Pixel)
    ensures (v - r) % Modulus == 0
    ensures -0x8000_0000 <= v < 0x8000_0000 ==> r == v
  {
    (v + 0x8000_0000) % Modulus - 0x8000_0000
  }

  /** Two integers congruent modulo 2^32 wrap to the same `int`. */
  lemma WrapCongruent(v: int, w: int)
    requires (v - w) % Modulus == 0
    ensures Wrap(v) == Wrap(w)
  {
  }

  /** Java's `int` subtraction `a - b` on the packed value: borrows run across channel
      boundaries and the result wraps modulo 2^32. */
  function Sub(a: Pixel, b: Pixel): (r: Pixel)
    ensures (r - (a - b)) % Modulus == 0
    ensures r == 0 <==> a == b
  {
    Wrap(a - b)
  }

  /** Subtracting the difference from the minuend gives back the subtrahend, for every pair of
      `int`s, including those where the subtraction wraps. */
  lemma SubInverse(a: Pixel, b: Pixel)
    ensures Sub(a, Sub(a, b)) == b
  {
    WrapCongruent(a - Sub(a, b), b);
  }

  /** A decoded raster: `rows[y][x]` is the pixel in column `x` of row `y`. */
  datatype Image = Image(width: nat, height: nat, rows: seq<seq<Pixel>>) {
    predicate WellFormed() {
      |rows| == height && forall y | 0 <= y < height :: |rows[y]| == width
    }
  }

  /** A file of a directory listing, with the raster that decoding it yields. */
  datatype ImageFile = ImageFile(name: string, image: Image)

  /** The failures of the core that are not I/O: the sort comparator's "no number match" and a
      list access past the end (`get(0)` on an empty listing, `get(i)` on a shorter second listing). */
  datatype Error = NoNumberMatch | IndexOutOfBounds(index: nat)

  datatype Result<T> = Ok(value: T) | Err(error: Error)

  datatype Option<T> = None | Some(value: T)

  predicate SameShape(a: Image, b: Image) {
    a.width == b.width && a.height == b.height
  }

  /** A well-formed raster of width `w` and height `h`. */
  predicate Shaped(im: Image, w: nat, h: nat) {
    im.WellFormed() && im.width == w && im.height == h
  }

  /** Every file holds a well-formed raster of the first file's size. */
  predicate SameSize(fs: seq<ImageFile>) {
    forall i | 0 <= i < |fs| :: Shaped(fs[i].image, fs[0].image.width, fs[0].image.height)
  }

  /** Files taken from a same-size sequence are same-size, in any order. */
  lemma SameSizeOfElements(fs: seq<ImageFile>, gs: seq<ImageFile>)
    requires SameSize(fs) && forall g | g in gs :: g in fs
    ensures SameSize(gs)
  {
    if |gs| > 0 {
      forall i | 0 <= i < |gs|
        ensures Shaped(gs[i].image, gs[0].image.width, gs[0].image.height)
      {
        assert gs[i] in fs && gs[0] in fs;
      }
    }
  }

  /** The delta of a pair of consecutive frames: previous minus current, pixel by pixel,
      as one wrapping 32-bit `int` subtraction on the packed value. */
  function Delta(prev: Image, cur: Image): (d: Image)
    requires prev.WellFormed() && cur.WellFormed() && SameShape(prev, cur)
    ensures d.WellFormed() && SameShape(d, prev)
    ensures forall y, x | 0 <= y < d.height && 0 <= x < d.width ::
      d.rows[y][x] == 0 <==> prev.rows[y][x] == cur.rows[y][x]
  {
    Image(prev.width, prev.height,
      seq(prev.height, y requires 0 <= y < prev.height =>
        seq(prev.width, x requires 0 <= x < prev.width => Sub(prev.rows[y][x], cur.rows[y][x]))))
  }

  /** One reconstruction step: the current frame minus the stored delta, pixel by pixel, wrapping. */
  function Undelta(current: Image, delta: Image): (r: Image)
    requires current.WellFormed() && delta.WellFormed() && SameShape(current, delta)
    ensures r.WellFormed() && SameShape(r, current)
  {
    Image(current.width, current.height,
      seq(current.height, y requires 0 <= y < current.height =>
        seq(current.width, x requires 0 <= x < current.width => Sub(current.rows[y][x], delta.rows[y][x]))))
  }

  /** Decoding a delta against the frame it was taken from gives back the next frame exactly,
      whatever the pixel values, including those where the subtraction wraps. */
  lemma UndeltaInvertsDelta(prev: Image, cur: Image)
    requires prev.WellFormed() && cur.WellFormed() && SameShape(prev, cur)
    ensures Undelta(prev, Delta(prev, cur)) == cur
  {
    var d := Delta(prev, cur);
    var r := Undelta(prev, d);
    forall y | 0 <= y < cur.height
      ensures r.rows[y] == cur.rows[y]
    {
      forall x | 0 <= x < cur.width
        ensures r.rows[y][x] == cur.rows[y][x]
      {
        SubInverse(prev.rows[y][x], cur.rows[y][x]);
      }
    }
    assert r.rows == cur.rows;
  }

  /** The value of a raster that has been filled in place, as writing it out and reading it
      back yields it (the PNG round trip is taken to be lossless). */
  function Snapshot(raster: array2<Pixel>): (im: Image)
    reads raster
    ensures im.WellFormed() && im.width == raster.Length1 && im.height == raster.Length0
    ensures forall y, x | 0 <= y < im.height && 0 <= x < im.width :: im.rows[y][x] == raster[y, x]
  {
    Image(raster.Length1, raster.Length0,
      seq(raster.Length0, y requires 0 <= y < raster.Length0 reads raster =>
        seq(raster.Length1, x requires 0 <= x < raster.Length1 reads raster => raster[y, x])))
  }
}
