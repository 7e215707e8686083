/** calculateAverageBlockColour: the mean colour of a clipped block.

    The program sums the 16-bit channel values that `RGBA()` reports over the
    block, x outer and y inner, in `uint32` accumulators that wrap around;
    divides each sum by the pixel count converted to `uint32` (a count of zero
    panics); divides by 0x101 to get back to 8 bits and converts to `uint8`.
    The input alpha is never read and the result is opaque. */
module Average {
  import opened Colour
  import opened Arith

  /** The rectangle [x0, x1) x [y0, y1) lies inside the columns of `g`. */
  predicate Within(g: Image, x0: int, x1: int, y0: int, y1: int) {
    0 <= x0 <= x1 <= |g| && 0 <= y0 <= y1 && forall x :: x0 <= x < x1 ==> y1 <= |g[x]|
  }

  /** The exact (unbounded) sum of channel `ch`, as 16-bit values, over
      column x, rows [y0, y1). */
  function ColumnSum(g: Image, ch: Channel, x: int, y0: int, y1: int): (r: nat)
    requires 0 <= x < |g| && 0 <= y0 <= y1 <= |g[x]|
    decreases y1 - y0
  {
    if y0 == y1 then 0 else ColumnSum(g, ch, x, y0, y1 - 1) + Wide(g[x][y1 - 1], ch)
  }

  /** The exact (unbounded) sum of channel `ch`, as 16-bit values, over the
      rectangle [x0, x1) x [y0, y1), column by column. */
  function RegionSum(g: Image, ch: Channel, x0: int, x1: int, y0: int, y1: int): (r: nat)
    requires Within(g, x0, x1, y0, y1)
    decreases x1 - x0
  {
    if x0 == x1 then 0 else RegionSum(g, ch, x0, x1 - 1, y0, y1) + ColumnSum(g, ch, x1 - 1, y0, y1)
  }

  /** `bounds.Dy() * bounds.Dx()` */
  function Area(x0: int, x1: int, y0: int, y1: int): (r: int) {
    (y1 - y0) * (x1 - x0)
  }

  /** One output channel: the wrapped sum divided by the uint32 pixel count,
      then by 0x101, truncated to 8 bits. */
  function ChannelAverage(g: Image, ch: Channel, x0: int, x1: int, y0: int, y1: int, n: int): (r: uint8)
    requires Within(g, x0, x1, y0, y1) && n > 0
  {
    Trunc8((Wrap32(RegionSum(g, ch, x0, x1, y0, y1)) / n) / 0x101)
  }

  /** The colour the program returns for the block [x0, x1) x [y0, y1), or
      None where it panics because the uint32 pixel count is zero. */
  function BlockAverage(g: Image, x0: int, x1: int, y0: int, y1: int): (r: Option<RGBA>)
    requires Within(g, x0, x1, y0, y1)
  {
    var n := Wrap32(Area(x0, x1, y0, y1));
    if n == 0 then None
    else Some(RGBA(ChannelAverage(g, Red, x0, x1, y0, y1, n),
                   ChannelAverage(g, Green, x0, x1, y0, y1, n),
                   ChannelAverage(g, Blue, x0, x1, y0, y1, n),
                   255))
  }

  /** Adding to a wrapped accumulator wraps the exact sum. */
  lemma WrapAdd(a: int, b: int)
    ensures Wrap32(Wrap32(a) + b) == Wrap32(a + b)
  {
  }

  /** The exact sum over the columns [x0, x) and the first rows [y0, y) of
      column x: what the accumulators have seen so far. */
  function Seen(g: Image, ch: Channel, x0: int, x: int, y0: int, y1: int, y: int): (r: nat)
    requires Within(g, x0, x, y0, y1) && x < |g| && y0 <= y <= y1 <= |g[x]|
  {
    RegionSum(g, ch, x0, x, y0, y1) + ColumnSum(g, ch, x, y0, y)
  }

  /** One step of the inner loop keeps an accumulator equal to the wrapped
      sum of what it has seen. */
  lemma Accumulate(g: Image, ch: Channel, x0: int, x: int, y0: int, y1: int, y: int, acc: int, p: RGBA)
    requires Within(g, x0, x, y0, y1) && x < |g| && y0 <= y < y1 <= |g[x]| && p == g[x][y]
    requires acc == Wrap32(Seen(g, ch, x0, x, y0, y1, y))
    ensures Wrap32(acc + Wide(p, ch)) == Wrap32(Seen(g, ch, x0, x, y0, y1, y + 1))
  {
    WrapAdd(Seen(g, ch, x0, x, y0, y1, y), Wide(p, ch));
  }

  /** A finished column joins the region sum. */
  lemma ColumnDone(g: Image, ch: Channel, x0: int, x: int, y0: int, y1: int)
    requires x0 <= x && Within(g, x0, x + 1, y0, y1)
    ensures Seen(g, ch, x0, x, y0, y1, y1) == RegionSum(g, ch, x0, x + 1, y0, y1)
  {
  }

  /** calculateAverageBlockColour on the block of `img` whose bounds are
      [minX, maxX) x [minY, maxY). */
  method CalculateAverageBlockColour(img: array2<RGBA>, minX: int, minY: int, maxX: int, maxY: int)
    returns (c: Option<RGBA>)
    requires 0 <= minX <= maxX <= img.Length0 && 0 <= minY <= maxY <= img.Length1
    ensures c == BlockAverage(Grid(img), minX, maxX, minY, maxY)
  {
    ghost var g := Snapshot(img);
    var avgR: uint32, avgG: uint32, avgB: uint32 := 0, 0, 0;
    var x := minX;
    while x < maxX
      invariant minX <= x <= maxX
      invariant avgR == Wrap32(RegionSum(g, Red, minX, x, minY, maxY))
      invariant avgG == Wrap32(RegionSum(g, Green, minX, x, minY, maxY))
      invariant avgB == Wrap32(RegionSum(g, Blue, minX, x, minY, maxY))
    {
      var y := minY;
      while y < maxY
        invariant minY <= y <= maxY
        invariant avgR == Wrap32(Seen(g, Red, minX, x, minY, maxY, y))
        invariant avgG == Wrap32(Seen(g, Green, minX, x, minY, maxY, y))
        invariant avgB == Wrap32(Seen(g, Blue, minX, x, minY, maxY, y))
      {
        var p := img[x, y];
        assert p == g[x][y];
        Accumulate(g, Red, minX, x, minY, maxY, y, avgR, p);
        Accumulate(g, Green, minX, x, minY, maxY, y, avgG, p);
        Accumulate(g, Blue, minX, x, minY, maxY, y, avgB, p);
        avgR := Wrap32(avgR + Wide(p, Red));
        avgG := Wrap32(avgG + Wide(p, Green));
        avgB := Wrap32(avgB + Wide(p, Blue));
        y := y + 1;
      }
      ColumnDone(g, Red, minX, x, minY, maxY);
      ColumnDone(g, Green, minX, x, minY, maxY);
      ColumnDone(g, Blue, minX, x, minY, maxY);
      x := x + 1;
    }
    var totalPixels := Wrap32((maxY - minY) * (maxX - minX));
    if totalPixels == 0 {
      // integer divide by zero: the program panics
      c := None;
    } else {
      DivShrinks(avgR, totalPixels);
      DivShrinks(avgG, totalPixels);
      DivShrinks(avgB, totalPixels);
      avgR := avgR / totalPixels;
      avgG := avgG / totalPixels;
      avgB := avgB / totalPixels;
      c := Some(RGBA(Trunc8(avgR / 0x101), Trunc8(avgG / 0x101), Trunc8(avgB / 0x101), 255));
    }
    assert c == BlockAverage(g, minX, maxX, minY, maxY);
    SameImage(g, Grid(img), img.Length0, img.Length1);
  }

  /** If channel `ch` of every pixel of column x reports (as a 16-bit
      value) between lo and hi, the column sum lies between lo and hi times
      the row count. */
  lemma {:induction false} ColumnSumBounds(g: Image, ch: Channel, x: int, y0: int, y1: int, lo: int, hi: int)
    requires 0 <= x < |g| && 0 <= y0 <= y1 <= |g[x]|
    requires forall y :: y0 <= y < y1 ==> lo <= Wide(g[x][y], ch) <= hi
    ensures lo * (y1 - y0) <= ColumnSum(g, ch, x, y0, y1) <= hi * (y1 - y0)
    decreases y1 - y0
  {
    if y0 < y1 {
      ColumnSumBounds(g, ch, x, y0, y1 - 1, lo, hi);
      MulStep(lo, y1 - y0);
      MulStep(hi, y1 - y0);
    }
  }

  /** The same bound over the rectangle, with the area as the count. */
  lemma {:induction false} RegionSumBounds(g: Image, ch: Channel, x0: int, x1: int, y0: int, y1: int, lo: int, hi: int)
    requires Within(g, x0, x1, y0, y1)
    requires forall x, y :: x0 <= x < x1 && y0 <= y < y1 ==> lo <= Wide(g[x][y], ch) <= hi
    ensures lo * Area(x0, x1, y0, y1) <= RegionSum(g, ch, x0, x1, y0, y1) <= hi * Area(x0, x1, y0, y1)
    decreases x1 - x0
  {
    if x0 < x1 {
      RegionSumBounds(g, ch, x0, x1 - 1, y0, y1, lo, hi);
      ColumnSumBounds(g, ch, x1 - 1, y0, y1, lo, hi);
      var h, a := y1 - y0, Area(x0, x1 - 1, y0, y1);
      MulStep(h, x1 - x0);
      assert Area(x0, x1, y0, y1) == a + h;
      MulAdd(lo, a, h);
      MulAdd(hi, a, h);
    }
  }

  /** 8-bit bounds on a channel over a rectangle give the bounds of its sum. */
  lemma RegionSumBounds8(g: Image, ch: Channel, x0: int, x1: int, y0: int, y1: int, lo: int, hi: int)
    requires Within(g, x0, x1, y0, y1)
    requires forall x, y :: x0 <= x < x1 && y0 <= y < y1 ==> lo <= Value(g[x][y], ch) <= hi
    ensures lo * 0x101 * Area(x0, x1, y0, y1) <= RegionSum(g, ch, x0, x1, y0, y1) <= hi * 0x101 * Area(x0, x1, y0, y1)
  {
    RegionSumBounds(g, ch, x0, x1, y0, y1, lo * 0x101, hi * 0x101);
  }

  /** The uint32 accumulators are exact while the block has at most 65537
      pixels (65537 * 0xffff < 2^32): each channel is then the exact sum
      divided by the pixel count, then by 0x101, both truncating; the input
      alpha plays no part and the result is opaque. */
  lemma AverageExact(g: Image, x0: int, x1: int, y0: int, y1: int)
    requires Within(g, x0, x1, y0, y1)
    requires 1 <= Area(x0, x1, y0, y1) <= 65537
    ensures BlockAverage(g, x0, x1, y0, y1).Some?
    ensures forall ch :: Value(BlockAverage(g, x0, x1, y0, y1).value, ch)
              == (RegionSum(g, ch, x0, x1, y0, y1) / Area(x0, x1, y0, y1)) / 0x101
    ensures BlockAverage(g, x0, x1, y0, y1).value.a == 255
  {
    var n := Area(x0, x1, y0, y1);
    assert Wrap32(n) == n;
    ChannelExact(g, Red, x0, x1, y0, y1);
    ChannelExact(g, Green, x0, x1, y0, y1);
    ChannelExact(g, Blue, x0, x1, y0, y1);
  }

  lemma ChannelExact(g: Image, ch: Channel, x0: int, x1: int, y0: int, y1: int)
    requires Within(g, x0, x1, y0, y1)
    requires 1 <= Area(x0, x1, y0, y1) <= 65537
    ensures ChannelAverage(g, ch, x0, x1, y0, y1, Area(x0, x1, y0, y1))
            == (RegionSum(g, ch, x0, x1, y0, y1) / Area(x0, x1, y0, y1)) / 0x101
  {
    var n := Area(x0, x1, y0, y1);
    var s := RegionSum(g, ch, x0, x1, y0, y1);
    RegionSumBounds(g, ch, x0, x1, y0, y1, 0, 0xffff);
    NoWrap(s, n);
  }

  /** A sum of at most n values of 0xffff, with n <= 65537, fits in uint32,
      and its mean scaled back to 8 bits fits in uint8. */
  lemma NoWrap(s: int, n: int)
    requires 1 <= n <= 65537 && 0 <= s <= 0xffff * n
    ensures Trunc8((Wrap32(s) / n) / 0x101) == (s / n) / 0x101
  {
    assert Wrap32(s) == s;
    DivBetween(s, n, 0, 0xffff);
    DivBetween(s / n, 0x101, 0, 255);
  }

  /** For a block of at most 65537 pixels whose channel `ch` lies in
      [lo, hi] everywhere, the averaged channel lies in [lo, hi] too. */
  lemma AverageWithinBounds(g: Image, x0: int, x1: int, y0: int, y1: int, ch: Channel, lo: int, hi: int)
    requires Within(g, x0, x1, y0, y1)
    requires 1 <= Area(x0, x1, y0, y1) <= 65537
    requires forall x, y :: x0 <= x < x1 && y0 <= y < y1 ==> lo <= Value(g[x][y], ch) <= hi
    ensures BlockAverage(g, x0, x1, y0, y1).Some?
    ensures lo <= Value(BlockAverage(g, x0, x1, y0, y1).value, ch) <= hi
  {
    var n := Area(x0, x1, y0, y1);
    var s := RegionSum(g, ch, x0, x1, y0, y1);
    AverageExact(g, x0, x1, y0, y1);
    RegionSumBounds8(g, ch, x0, x1, y0, y1, lo, hi);
    assert lo * 0x101 * n == (lo * 0x101) * n && hi * 0x101 * n == (hi * 0x101) * n;
    DivBetween(s, n, lo * 0x101, hi * 0x101);
    DivBetween(s / n, 0x101, lo, hi);
  }

  /** A block of at most 65537 pixels that all have the red, green and blue
      of `c` averages to exactly that colour, made opaque, whatever the
      pixels' alpha. */
  lemma AverageOfUniform(g: Image, x0: int, x1: int, y0: int, y1: int, c: RGBA)
    requires Within(g, x0, x1, y0, y1)
    requires 1 <= Area(x0, x1, y0, y1) <= 65537
    requires forall x, y :: x0 <= x < x1 && y0 <= y < y1 ==>
               g[x][y].r == c.r && g[x][y].g == c.g && g[x][y].b == c.b
    ensures BlockAverage(g, x0, x1, y0, y1) == Some(RGBA(c.r, c.g, c.b, 255))
  {
    AverageExact(g, x0, x1, y0, y1);
    AverageWithinBounds(g, x0, x1, y0, y1, Red, c.r, c.r);
    AverageWithinBounds(g, x0, x1, y0, y1, Green, c.g, c.g);
    AverageWithinBounds(g, x0, x1, y0, y1, Blue, c.b, c.b);
  }

  /** Column sums read only the channel they sum. */
  lemma {:induction false} ColumnSumReadsChannel(g: Image, h: Image, ch: Channel, x: int, y0: int, y1: int)
    requires 0 <= x < |g| && x < |h| && 0 <= y0 <= y1 <= |g[x]| && y1 <= |h[x]|
    requires forall y :: y0 <= y < y1 ==> Value(g[x][y], ch) == Value(h[x][y], ch)
    ensures ColumnSum(g, ch, x, y0, y1) == ColumnSum(h, ch, x, y0, y1)
    decreases y1 - y0
  {
    if y0 < y1 {
      ColumnSumReadsChannel(g, h, ch, x, y0, y1 - 1);
    }
  }

  /** Region sums read only the channel they sum. */
  lemma {:induction false} RegionSumReadsChannel(g: Image, h: Image, ch: Channel, x0: int, x1: int, y0: int, y1: int)
    requires Within(g, x0, x1, y0, y1) && Within(h, x0, x1, y0, y1)
    requires forall x, y :: x0 <= x < x1 && y0 <= y < y1 ==> Value(g[x][y], ch) == Value(h[x][y], ch)
    ensures RegionSum(g, ch, x0, x1, y0, y1) == RegionSum(h, ch, x0, x1, y0, y1)
    decreases x1 - x0
  {
    if x0 < x1 {
      RegionSumReadsChannel(g, h, ch, x0, x1 - 1, y0, y1);
      ColumnSumReadsChannel(g, h, ch, x1 - 1, y0, y1);
    }
  }

  /** The input alpha plays no part, at any block size: two blocks that
      agree on red, green and blue average to the same colour. */
  lemma AverageIgnoresAlpha(g: Image, h: Image, x0: int, x1: int, y0: int, y1: int)
    requires Within(g, x0, x1, y0, y1) && Within(h, x0, x1, y0, y1)
    requires forall x, y :: x0 <= x < x1 && y0 <= y < y1 ==>
               g[x][y].r == h[x][y].r && g[x][y].g == h[x][y].g && g[x][y].b == h[x][y].b
    ensures BlockAverage(g, x0, x1, y0, y1) == BlockAverage(h, x0, x1, y0, y1)
  {
    RegionSumReadsChannel(g, h, Red, x0, x1, y0, y1);
    RegionSumReadsChannel(g, h, Green, x0, x1, y0, y1);
    RegionSumReadsChannel(g, h, Blue, x0, x1, y0, y1);
  }

  /** Past 65537 pixels the accumulators wrap: a full 257 x 257 block of
      white averages to (1, 1, 1), not to white. */
  lemma WhiteBlockOf257Wraps(g: Image, x0: int, y0: int)
    requires Within(g, x0, x0 + 257, y0, y0 + 257)
    requires forall x, y :: x0 <= x < x0 + 257 && y0 <= y < y0 + 257 ==>
               g[x][y].r == 255 && g[x][y].g == 255 && g[x][y].b == 255
    ensures BlockAverage(g, x0, x0 + 257, y0, y0 + 257) == Some(RGBA(1, 1, 1, 255))
  {
    var x1, y1 := x0 + 257, y0 + 257;
    assert Area(x0, x1, y0, y1) == 66049;
    forall ch
      ensures ChannelAverage(g, ch, x0, x1, y0, y1, 66049) == 1
    {
      var s := RegionSum(g, ch, x0, x1, y0, y1);
      RegionSumBounds(g, ch, x0, x1, y0, y1, 0xffff, 0xffff);
      assert s == 4328521215;
      assert Wrap32(s) == 33553919;
      assert 33553919 / 66049 == 508;
    }
  }

  /** Division truncates: two red and two black pixels average to red 127
      (510 * 0x101 / 4 / 0x101), not 128. */
  lemma TwoRedTwoBlack()
    ensures BlockAverage([[RGBA(255, 0, 0, 255), RGBA(255, 0, 0, 255)],
                          [RGBA(0, 0, 0, 255), RGBA(0, 0, 0, 255)]], 0, 2, 0, 2)
            == Some(RGBA(127, 0, 0, 255))
  {
    var g := [[RGBA(255, 0, 0, 255), RGBA(255, 0, 0, 255)], [RGBA(0, 0, 0, 255), RGBA(0, 0, 0, 255)]];
    assert ColumnSum(g, Red, 0, 0, 2) == 2 * 0xffff;
    assert ColumnSum(g, Red, 1, 0, 2) == 0;
    assert RegionSum(g, Red, 0, 2, 0, 2) == 2 * 0xffff;
    assert (2 * 0xffff / 4) / 0x101 == 127;
    assert ColumnSum(g, Green, 0, 0, 2) == 0 && ColumnSum(g, Green, 1, 0, 2) == 0;
    assert RegionSum(g, Green, 0, 2, 0, 2) == 0;
    assert ColumnSum(g, Blue, 0, 0, 2) == 0 && ColumnSum(g, Blue, 1, 0, 2) == 0;
    assert RegionSum(g, Blue, 0, 2, 0, 2) == 0;
  }
}
