/** Colours, fixed-width integers and the in-memory RGBA image of distill.go.

    The image the program works on is an `*image.RGBA` whose bounds start at
    (0, 0). It is modelled as an `array2<RGBA>` indexed `[x, y]`, so that the
    first dimension is the width, as in the program's x-outer loops. Every
    stored pixel is a `color.RGBA` of four 8-bit channels. */
module Colour {

  const Modulus8: int := 0x100
  const Modulus32: int := 0x1_0000_0000

  type uint8 = n: int | 0 <= n < 0x100
  type uint32 = n: int | 0 <= n < 0x1_0000_0000

  /** Go's conversion of an integer to `uint32`: keep the low 32 bits. */
  function Wrap32(n: int): (r: uint32) {
    n % Modulus32
  }

  /** Go's conversion of an integer to `uint8`: keep the low 8 bits. */
  function Trunc8(n: int): (r: uint8) {
    n % Modulus8
  }

  /** A `color.RGBA` value. */
  datatype RGBA = RGBA(r: uint8, g: uint8, b: uint8, a: uint8)

  datatype Channel = Red | Green | Blue

  function Value(p: RGBA, ch: Channel): (r: uint8) {
    match ch
    case Red => p.r
    case Green => p.g
    case Blue => p.b
  }

  /** One colour channel as `color.RGBA.RGBA()` reports it: the 8-bit value
      replicated into 16 bits, that is, multiplied by 0x101. */
  function Wide(p: RGBA, ch: Channel): (r: uint32) {
    Value(p, ch) * 0x101
  }

  datatype Option<+T> = None | Some(value: T)

  /** A Go `(value, error)` pair in which exactly one side is meaningful. */
  datatype Outcome<+T> = Success(value: T) | Failure(error: string)

  /** The value of an image: `g[x][y]` is the pixel at (x, y). */
  type Image = seq<seq<RGBA>>

  predicate IsRect(g: Image, width: int, height: int) {
    |g| == width && forall x :: 0 <= x < |g| ==> |g[x]| == height
  }

  /** The pixels of `img` as a value. */
  function Grid(img: array2<RGBA>): (g: Image)
    reads img
    ensures IsRect(g, img.Length0, img.Length1)
    ensures forall x, y :: 0 <= x < img.Length0 && 0 <= y < img.Length1 ==> g[x][y] == img[x, y]
  {
    seq(img.Length0, x requires 0 <= x < img.Length0 reads img =>
      seq(img.Length1, y requires 0 <= y < img.Length1 reads img => img[x, y]))
  }

  /** A value with the pixels of `img` that, unlike `Grid(img)`, keeps the
      heap out of the proofs that use it; `SameImage` equates the two. */
  lemma Snapshot(img: array2<RGBA>) returns (g: Image)
    ensures IsRect(g, img.Length0, img.Length1)
    ensures forall x, y :: 0 <= x < img.Length0 && 0 <= y < img.Length1 ==> g[x][y] == img[x, y]
  {
    g := Grid(img);
  }

  /** Two rectangles of the same size with the same pixels are the same image. */
  lemma SameImage(a: Image, b: Image, width: int, height: int)
    requires IsRect(a, width, height) && IsRect(b, width, height)
    requires forall x, y :: 0 <= x < width && 0 <= y < height ==> a[x][y] == b[x][y]
    ensures a == b
  {
    forall x | 0 <= x < width
      ensures a[x] == b[x]
    {
    }
  }
}
